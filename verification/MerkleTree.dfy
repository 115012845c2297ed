/** The Merkle tree hash of section 2.1 of RFC 6962, and its description level by level. */
module MerkleTree {
  import opened Digests

  /** Number of values of a machine word. */
  const WORD: nat := 0x1_0000_0000_0000_0000

  /** Root of the empty log: the leaf hash of no data. */
  function EmptyRoot(): Digest {
    LeafHash(NoData)
  }

  predicate IsPow2(n: nat) {
    n == 1 || (n > 1 && n % 2 == 0 && IsPow2(n / 2))
  }

  /** The largest power of two strictly below `n`. */
  function Split(n: nat): (k: nat)
    requires 2 <= n
    ensures k < n <= 2 * k
  {
    if n == 2 then 1 else 2 * Split((n + 1) / 2)
  }

  lemma {:induction false} SplitIsPow2(n: nat)
    requires 2 <= n
    ensures IsPow2(Split(n))
  {
    if n > 2 { SplitIsPow2((n + 1) / 2); }
  }

  lemma {:induction false} Pow2Gap(a: nat, b: nat)
    requires IsPow2(a) && IsPow2(b) && a < b
    ensures 2 * a <= b
  {
    if a > 1 { Pow2Gap(a / 2, b / 2); }
  }

  /** `Split` is the only power of two in its window. */
  lemma SplitUnique(n: nat, k: nat)
    requires 2 <= n && IsPow2(k) && k < n <= 2 * k
    ensures k == Split(n)
  {
    SplitIsPow2(n);
    if k < Split(n) { Pow2Gap(k, Split(n)); }
    if Split(n) < k { Pow2Gap(Split(n), k); }
  }

  /** MTH of section 2.1 of RFC 6962, over the leaf hashes. */
  function Mth(hashes: seq<Digest>): Digest
    decreases |hashes|, 1
  {
    if |hashes| == 0 then EmptyRoot()
    else if |hashes| == 1 then hashes[0]
    else MthAt(hashes, Split(|hashes|))
  }

  /** The root of a tree whose left subtree holds the first `k` leaves. */
  function MthAt(hashes: seq<Digest>, k: nat): Digest
    requires 0 < k < |hashes|
    decreases |hashes|, 0
  {
    NodeHash(Mth(hashes[..k]), Mth(hashes[k..]))
  }

  /** The trees of no leaf, of one and of three. */
  lemma SmallTrees(a: Digest, b: Digest, c: Digest)
    ensures Mth([]) == LeafHash(NoData) && Mth([a]) == a
    ensures Mth([a, b, c]) == NodeHash(NodeHash(a, b), c)
  {
    assert [a, b, c][..2] == [a, b] && [a, b, c][2..] == [c] && [a, b][..1] == [a] && [a, b][1..] == [b];
    assert Split(3) == 2 && Mth([a]) == a && Mth([b]) == b && Mth([c]) == c;
    assert Mth([a, b]) == MthAt([a, b], 1) == NodeHash(a, b);
    assert Mth([a, b, c]) == MthAt([a, b, c], 2) == NodeHash(Mth([a, b]), c);
  }

  function Parent(nodes: seq<Digest>, i: nat): Digest
    requires 2 * i < |nodes|
  {
    if 2 * i + 1 < |nodes| then NodeHash(nodes[2 * i], nodes[2 * i + 1]) else nodes[2 * i]
  }

  /** One level up: neighbours are joined in pairs and an odd last node is promoted. */
  function Level(nodes: seq<Digest>): (parents: seq<Digest>)
    ensures |parents| == (|nodes| + 1) / 2
  {
    seq((|nodes| + 1) / 2, i requires 0 <= i < (|nodes| + 1) / 2 => Parent(nodes, i))
  }

  /** The two subtrees under the root. */
  lemma Halves(hashes: seq<Digest>) returns (left: seq<Digest>, right: seq<Digest>)
    requires 2 <= |hashes|
    ensures hashes == left + right && 1 <= |left| && 1 <= |right| && |left| == Split(|left| + |right|)
  {
    left, right := hashes[..Split(|hashes|)], hashes[Split(|hashes|)..];
  }

  lemma {:induction false} MthAtConcat(left: seq<Digest>, right: seq<Digest>)
    requires 1 <= |left| && 1 <= |right|
    ensures MthAt(left + right, |left|) == NodeHash(Mth(left), Mth(right))
  {
    assert (left + right)[..|left|] == left && (left + right)[|left|..] == right;
  }

  /** The split of section 2.1 of RFC 6962, with the two halves given. */
  lemma {:induction false} MthConcat(left: seq<Digest>, right: seq<Digest>)
    requires 1 <= |left| && 1 <= |right| && |left| == Split(|left| + |right|)
    ensures Mth(left + right) == NodeHash(Mth(left), Mth(right))
  {
    var whole := left + right;
    assert |whole| == |left| + |right|;
    MthAtConcat(left, right);
  }

  lemma LevelConcat(left: seq<Digest>, right: seq<Digest>, j: nat)
    requires |left| == 2 * j
    ensures |Level(left)| == j && Level(left + right) == Level(left) + Level(right)
  {
    var whole, parts := Level(left + right), Level(left) + Level(right);
    forall i | 0 <= i < |whole| ensures whole[i] == parts[i] {
      if i < j {
        assert parts[i] == Level(left)[i] == Parent(left, i);
      } else {
        assert parts[i] == Level(right)[i - j] == Parent(right, i - j);
      }
    }
  }

  lemma LevelPrefix(nodes: seq<Digest>, j: nat)
    requires 2 * j <= |nodes|
    ensures Level(nodes[..2 * j]) == Level(nodes)[..j]
  {}

  /** An uneven split is even: it doubles the split one level up. */
  lemma SplitDouble(left: nat, right: nat) returns (j: nat)
    requires 1 <= right && 2 < left + right && left == Split(left + right)
    ensures left == 2 * j && j == Split(j + (right + 1) / 2)
  {
    j := Split((left + right + 1) / 2);
  }

  /** The bottom-up tree is the top-down tree. */
  lemma {:induction false} MthLevel(nodes: seq<Digest>)
    requires |nodes| >= 1
    ensures Mth(Level(nodes)) == Mth(nodes)
    decreases |nodes|
  {
    if |nodes| == 1 {
      assert Level(nodes) == nodes;
    } else if |nodes| == 2 {
      MthLevelTwo(nodes);
    } else {
      var left, right := Halves(nodes);
      MthLevel(left);
      MthLevel(right);
      MthLevelConcat(left, right);
    }
  }

  lemma {:induction false} MthLevelTwo(nodes: seq<Digest>)
    requires |nodes| == 2
    ensures Mth(Level(nodes)) == Mth(nodes)
  {
    MthConcat(nodes[..1], nodes[1..]);
    assert nodes[..1] + nodes[1..] == nodes;
    assert Level(nodes) == [NodeHash(nodes[0], nodes[1])];
  }

  lemma {:induction false} MthLevelConcat(left: seq<Digest>, right: seq<Digest>)
    requires 1 <= |left| && 1 <= |right| && 2 < |left| + |right| && |left| == Split(|left| + |right|)
    requires Mth(Level(left)) == Mth(left) && Mth(Level(right)) == Mth(right)
    ensures Mth(Level(left + right)) == Mth(left + right)
  {
    var j := SplitDouble(|left|, |right|);
    LevelConcat(left, right, j);
    assert Mth(Level(left) + Level(right)) == NodeHash(Mth(left), Mth(right)) by {
      MthConcat(Level(left), Level(right));
    }
    assert Mth(left + right) == NodeHash(Mth(left), Mth(right)) by { MthConcat(left, right); }
  }

  /** Equal roots at equal sizes mean equal leaves. */
  lemma {:induction false} MthInjective(a: seq<Digest>, b: seq<Digest>)
    requires |a| == |b|
    ensures Mth(a) == Mth(b) <==> a == b
    decreases |a|
  {
    if |a| >= 2 {
      var k := Split(|a|);
      MthInjective(a[..k], b[..k]);
      MthInjective(a[k..], b[k..]);
      if Mth(a) == Mth(b) {
        assert a == a[..k] + a[k..] && b == b[..k] + b[k..];
      }
    }
  }

  /** How many leaves with data a digest was made of. */
  function Leaves(digest: Digest): nat {
    match digest
    case LeafHash(data) => if data == NoData then 0 else 1
    case NodeHash(left, right) => Leaves(left) + Leaves(right)
    case _ => 0
  }

  lemma {:induction false} LeavesOfMth(hashes: seq<Digest>)
    requires forall i :: 0 <= i < |hashes| ==> Leaves(hashes[i]) == 1
    ensures Leaves(Mth(hashes)) == |hashes|
    decreases |hashes|
  {
    if |hashes| >= 2 {
      var k := Split(|hashes|);
      LeavesOfMth(hashes[..k]);
      LeavesOfMth(hashes[k..]);
      assert Mth(hashes) == MthAt(hashes, k);
    }
  }

  /** A root determines its whole log, the size included. */
  lemma {:induction false} RootDeterminesLog(a: seq<Receipt>, b: seq<Receipt>)
    ensures Mth(LeafHashes(a)) == Mth(LeafHashes(b)) <==> a == b
  {
    if Mth(LeafHashes(a)) == Mth(LeafHashes(b)) {
      LeavesOfMth(LeafHashes(a));
      LeavesOfMth(LeafHashes(b));
      MthInjective(LeafHashes(a), LeafHashes(b));
      LeafHashesPrefix(a, b);
      assert LeafHashes(b)[..|a|] == LeafHashes(b) && b[..|a|] == b;
    }
  }

  /** The least `e` with `n <= 2^e`. */
  function CeilLog2(n: nat): nat {
    if n <= 1 then 0 else 1 + CeilLog2((n + 1) / 2)
  }

  lemma {:induction false} CeilLog2Monotone(a: nat, b: nat)
    requires a <= b
    ensures CeilLog2(a) <= CeilLog2(b)
  {
    if a > 1 { CeilLog2Monotone((a + 1) / 2, (b + 1) / 2); }
  }

  lemma {:induction false} CeilLog2Split(n: nat)
    requires 2 <= n
    ensures CeilLog2(n) == 1 + CeilLog2(Split(n))
  {
    if n > 2 {
      var half := (n + 1) / 2;
      CeilLog2Split(half);
      assert (Split(n) + 1) / 2 == Split(half);
    }
  }

  function Pow2(e: nat): nat {
    if e == 0 then 1 else 2 * Pow2(e - 1)
  }

  lemma {:induction false} CeilLog2Bound(n: nat, e: nat)
    requires n <= Pow2(e)
    ensures CeilLog2(n) <= e
  {
    if n > 1 { CeilLog2Bound((n + 1) / 2, e - 1); }
  }

  lemma {:induction false} Pow2Twice(e: nat, half: nat)
    requires half <= e
    ensures Pow2(e) == Pow2(half) * Pow2(e - half)
  {
    if half > 0 { Pow2Twice(e - 1, half - 1); }
  }

  /** The word length: 2^64. */
  lemma Pow2Word()
    ensures Pow2(64) == WORD
  {
    assert Pow2(1) == 2 && Pow2(2) == 4;
    Pow2Twice(4, 2);
    Pow2Twice(8, 4);
    Pow2Twice(16, 8);
    Pow2Twice(32, 16);
    Pow2Twice(64, 32);
  }
}
