/** The sparse Merkle revocation map: a sorted key list, default-subtree hashes and proofs
    compacted by a bitmap. A key is its bits, most significant first; `KeyOrder` shows that
    the byte order of keys is the order of their bits. Bitmaps are `width` bytes long and the
    tree is `8 * width` levels deep; the deployed width is 32. */
module RevocationMaps {
  import opened Wrappers
  import opened Digests
  import opened KeyOrder
  import opened MapTree

  type BitKey = seq<bool>

  /** Key width in bytes of the deployed map: 256 levels. */
  const KEY_WIDTH: nat := 32

  /** A proof: a bitmap of the depths that carry a hash, and those hashes in ascending depth. */
  datatype MapProof = MapProof(present: seq<bv8>, siblings: seq<Digest>)

  ghost predicate Sorted(keys: seq<BitKey>, width: nat) {
    && (forall i :: 0 <= i < |keys| ==> |keys[i]| == 8 * width)
    && (forall i, j {:trigger BitLess(keys[i], keys[j])} :: 0 <= i < j < |keys| ==> BitLess(keys[i], keys[j]))
  }

  ghost predicate DefaultRow(row: seq<Digest>) {
    forall h :: 0 <= h < |row| ==> row[h] == Default(h)
  }

  ghost predicate GoodDefaults(defaults: seq<Digest>, width: nat) {
    |defaults| == 8 * width + 1 && DefaultRow(defaults)
  }

  /** Fills the table of empty-subtree roots, one per height. */
  method NewDefaults(width: nat) returns (defaults: array<Digest>)
    ensures fresh(defaults) && GoodDefaults(defaults[..], width)
  {
    defaults := new Digest[8 * width + 1](_ => Raw(0));
    defaults[0] := EmptyLeaf();
    for h := 1 to defaults.Length
      invariant DefaultRow(defaults[..h])
    {
      ghost var row := defaults[..h];
      defaults[h] := NodeHash(defaults[h - 1], defaults[h - 1]);
      assert defaults[..h + 1] == row + [NodeHash(row[h - 1], row[h - 1])];
      DefaultRowGrows(row);
    }
    assert defaults[..defaults.Length] == defaults[..];
  }

  lemma DefaultRowGrows(row: seq<Digest>)
    requires row != [] && DefaultRow(row)
    ensures DefaultRow(row + [NodeHash(row[|row| - 1], row[|row| - 1])])
  {
    assert Default(|row|) == NodeHash(Default(|row| - 1), Default(|row| - 1));
  }

  /** How many keys, from the front, have a 0 at bit `d`. */
  function PartitionPoint(keys: seq<BitKey>, d: nat): (split: nat)
    requires forall i :: 0 <= i < |keys| ==> d < |keys[i]|
    ensures split <= |keys|
  {
    if keys == [] || keys[0][d] then 0 else 1 + PartitionPoint(keys[1..], d)
  }

  lemma {:induction false} PartitionPointFirst(keys: seq<BitKey>, d: nat)
    requires forall i :: 0 <= i < |keys| ==> d < |keys[i]|
    ensures var split := PartitionPoint(keys, d);
            && (forall i :: 0 <= i < split ==> !keys[i][d])
            && (split < |keys| ==> keys[split][d])
  {
    if keys != [] && !keys[0][d] {
      PartitionPointFirst(keys[1..], d);
      forall i | 1 <= i < PartitionPoint(keys, d) ensures !keys[i][d] {
        assert keys[i] == keys[1..][i - 1];
      }
    }
  }

  /** Root of the subtree at `depth` over exactly the given keys. */
  function SubtreeRoot(defaults: seq<Digest>, keys: seq<BitKey>, depth: nat, width: nat): Digest
    requires |defaults| == 8 * width + 1 && depth <= 8 * width
    requires forall i :: 0 <= i < |keys| ==> |keys[i]| == 8 * width
    decreases 8 * width - depth, 1
  {
    if keys == [] then defaults[8 * width - depth]
    else if depth == 8 * width then KeyLeaf(keys[0])
    else SubtreeRootAt(defaults, keys, PartitionPoint(keys, depth), depth, width)
  }

  /** The node over the two children of a subtree, the first `split` keys being the left one's. */
  function SubtreeRootAt(defaults: seq<Digest>, keys: seq<BitKey>, split: nat, depth: nat, width: nat): Digest
    requires |defaults| == 8 * width + 1 && depth < 8 * width && split <= |keys|
    requires forall i :: 0 <= i < |keys| ==> |keys[i]| == 8 * width
    decreases 8 * width - depth, 0
  {
    NodeHash(SubtreeRoot(defaults, keys[..split], depth + 1, width),
             SubtreeRoot(defaults, keys[split..], depth + 1, width))
  }

  ghost function KeySet(keys: seq<BitKey>): set<BitKey> {
    set k | k in keys
  }

  /** The sorted keys are exactly the revoked keys below `prefix`. */
  ghost predicate Span(keys: seq<BitKey>, prefix: seq<bool>, revoked: set<BitKey>, width: nat) {
    && Sorted(keys, width)
    && (forall i :: 0 <= i < |keys| ==> prefix <= keys[i] && keys[i] in revoked)
    && (forall k {:trigger k in revoked} :: k in revoked && |k| == 8 * width && prefix <= k ==> k in keys)
  }

  /** Keys that share their first bits are ordered by the next one. */
  lemma SharedPrefixOrdered(a: BitKey, b: BitKey, prefix: seq<bool>)
    requires |a| == |b| && BitLess(a, b) && |prefix| < |a| && prefix <= a && prefix <= b
    ensures a[|prefix|] ==> b[|prefix|]
  {
    if a[|prefix|] != b[|prefix|] { BitLessAt(a, b, 0, |prefix|); }
  }

  /** The partition point cuts a span exactly into the spans of the two children. */
  lemma SpanSplit(keys: seq<BitKey>, prefix: seq<bool>, revoked: set<BitKey>, width: nat)
    requires Span(keys, prefix, revoked, width) && |prefix| < 8 * width
    ensures var split := PartitionPoint(keys, |prefix|);
            && Span(keys[..split], prefix + [false], revoked, width)
            && Span(keys[split..], prefix + [true], revoked, width)
  {
    var split := PartitionPoint(keys, |prefix|);
    PartitionPointFirst(keys, |prefix|);
    forall i | split <= i < |keys| ensures keys[i][|prefix|] {
      if i > split { SharedPrefixOrdered(keys[split], keys[i], prefix); }
    }
    SpanChild(keys, 0, split, prefix, false, revoked, width);
    SpanChild(keys, split, |keys|, prefix, true, revoked, width);
    assert keys[0..split] == keys[..split] && keys[split..|keys|] == keys[split..];
  }

  lemma SpanChild(keys: seq<BitKey>, lo: nat, hi: nat, prefix: seq<bool>, b: bool,
                  revoked: set<BitKey>, width: nat)
    requires Span(keys, prefix, revoked, width) && |prefix| < 8 * width && lo <= hi <= |keys|
    requires forall i :: 0 <= i < |keys| ==> (lo <= i < hi <==> keys[i][|prefix|] == b)
    ensures Span(keys[lo..hi], prefix + [b], revoked, width)
  {
    var child := keys[lo..hi];
    forall i | 0 <= i < |child| ensures prefix + [b] <= child[i] && child[i] in revoked {
      assert child[i] == keys[lo + i];
      assert child[i][..|prefix| + 1] == prefix + [b];
    }
    forall k | k in revoked && |k| == 8 * width && prefix + [b] <= k ensures k in child {
      ShorterPrefix(prefix, b, k);
      assert k[|prefix|] == (prefix + [b])[|prefix|] == b;
      var i :| 0 <= i < |keys| && keys[i] == k;
      assert child[i - lo] == k;
    }
  }

  /** The sparse tree over a sorted span is the dense tree below its prefix: neither the
      defaults nor the order of insertion can be told from the root. */
  lemma {:induction false} SubtreeRootIsDense(defaults: seq<Digest>, keys: seq<BitKey>, prefix: seq<bool>,
                                              revoked: set<BitKey>, width: nat)
    requires GoodDefaults(defaults, width) && |prefix| <= 8 * width && Span(keys, prefix, revoked, width)
    ensures SubtreeRoot(defaults, keys, |prefix|, width) == Dense(revoked, prefix, 8 * width)
    decreases 8 * width - |prefix|
  {
    if keys == [] {
      DenseEmpty(revoked, prefix, 8 * width);
    } else if |prefix| == 8 * width {
      assert keys[0] == prefix;
    } else {
      var split := PartitionPoint(keys, |prefix|);
      var left, right := keys[..split], keys[split..];
      assert Span(left, prefix + [false], revoked, width) && Span(right, prefix + [true], revoked, width) by {
        SpanSplit(keys, prefix, revoked, width);
      }
      SubtreeRootIsDense(defaults, left, prefix + [false], revoked, width);
      SubtreeRootIsDense(defaults, right, prefix + [true], revoked, width);
      NodeIsDense(defaults, keys, left, right, prefix, revoked, width);
    }
  }

  lemma NodeIsDense(defaults: seq<Digest>, keys: seq<BitKey>, left: seq<BitKey>,
                    right: seq<BitKey>, prefix: seq<bool>,
                    revoked: set<BitKey>, width: nat)
    requires |defaults| == 8 * width + 1 && |prefix| < 8 * width && keys != []
    requires forall i :: 0 <= i < |keys| ==> |keys[i]| == 8 * width
    requires left == keys[..PartitionPoint(keys, |prefix|)] && right == keys[PartitionPoint(keys, |prefix|)..]
    requires SubtreeRoot(defaults, left, |prefix| + 1, width) == Dense(revoked, prefix + [false], 8 * width)
    requires SubtreeRoot(defaults, right, |prefix| + 1, width) == Dense(revoked, prefix + [true], 8 * width)
    ensures SubtreeRoot(defaults, keys, |prefix|, width) == Dense(revoked, prefix, 8 * width)
  {
    var split := PartitionPoint(keys, |prefix|);
    assert SubtreeRootAt(defaults, keys, split, |prefix|, width) ==
           NodeHash(Dense(revoked, prefix + [false], 8 * width), Dense(revoked, prefix + [true], 8 * width));
  }

  /** How many of the first `d` depths carry a hash. */
  function Rank(present: seq<bv8>, d: nat): (rank: nat)
    requires d <= 8 * |present|
    ensures rank <= d
  {
    if d == 0 then 0 else Rank(present, d - 1) + (if Bit(present, d - 1) then 1 else 0)
  }

  lemma {:induction false} RankMonotone(present: seq<bv8>, c: nat, d: nat)
    requires c <= d <= 8 * |present|
    ensures Rank(present, c) <= Rank(present, d)
    decreases d - c
  {
    if c < d { RankMonotone(present, c, d - 1); }
  }

  lemma RankStrict(present: seq<bv8>, c: nat, d: nat)
    requires c < d <= 8 * |present| && Bit(present, c)
    ensures Rank(present, c) < Rank(present, d)
  {
    RankMonotone(present, c + 1, d);
  }

  /** Whether the bitmap and the number of hashes fit together. */
  predicate WellFormed(proof: MapProof, width: nat) {
    |proof.present| == width && Rank(proof.present, 8 * width) == |proof.siblings|
  }

  /** The sibling a well-formed proof stands for at one depth: a carried hash or the default
      of the sibling's own height. */
  function ExpandedAt(proof: MapProof, width: nat, d: nat): Digest
    requires WellFormed(proof, width) && d < 8 * width
  {
    if Bit(proof.present, d) then
      RankStrict(proof.present, d, 8 * width);
      proof.siblings[Rank(proof.present, d)]
    else Default(8 * width - d - 1)
  }

  function Expanded(proof: MapProof, width: nat): Option<seq<Digest>> {
    if WellFormed(proof, width) then
      Some(seq(8 * width, d requires 0 <= d < 8 * width => ExpandedAt(proof, width, d)))
    else None
  }

  /** Expands a proof to one sibling per depth, refusing a bitmap that does not match. */
  method Expand(proof: MapProof, defaults: array<Digest>, width: nat) returns (full: Option<seq<Digest>>)
    requires GoodDefaults(defaults[..], width)
    ensures full == Expanded(proof, width)
  {
    if |proof.present| != width { return None; }
    var slots := new Digest[8 * width](_ => Raw(0));
    var next: nat := 0;
    for d := 0 to 8 * width
      invariant next == Rank(proof.present, d) && next <= |proof.siblings|
      invariant WellFormed(proof, width) ==> ExpandedRow(proof, width, slots[..d])
      invariant GoodDefaults(defaults[..], width)
    {
      ghost var row := slots[..d];
      if Bit(proof.present, d) {
        if next == |proof.siblings| {
          RankStrict(proof.present, d, 8 * width);
          return None;
        }
        slots[d] := proof.siblings[next];
        next := next + 1;
      } else {
        slots[d] := defaults[8 * width - d - 1];
        assert slots[d] == defaults[..][8 * width - d - 1];
      }
      assert slots[..d + 1] == row + [slots[d]];
      if WellFormed(proof, width) { RowGrows(proof, width, row, slots[d]); }
    }
    if next < |proof.siblings| { return None; }
    assert slots[..8 * width] == slots[..];
    full := Some(slots[..]);
    RowComplete(proof, width, slots[..]);
  }

  /** The first depths, expanded. */
  ghost predicate ExpandedRow(proof: MapProof, width: nat, row: seq<Digest>)
    requires WellFormed(proof, width) && |row| <= 8 * width
  {
    forall c :: 0 <= c < |row| ==> row[c] == ExpandedAt(proof, width, c)
  }

  lemma RowGrows(proof: MapProof, width: nat, row: seq<Digest>, next: Digest)
    requires WellFormed(proof, width) && |row| < 8 * width && ExpandedRow(proof, width, row)
    requires next == ExpandedAt(proof, width, |row|)
    ensures ExpandedRow(proof, width, row + [next])
  {}

  lemma RowComplete(proof: MapProof, width: nat, row: seq<Digest>)
    requires WellFormed(proof, width) && |row| == 8 * width && ExpandedRow(proof, width, row)
    ensures Expanded(proof, width) == Some(row)
  {
    assert Expanded(proof, width).value == row;
  }

  /** The depths that carry a hash. */
  ghost function Marked(present: seq<bv8>, d: nat): (depths: set<nat>)
    requires d <= 8 * |present|
  {
    set c: nat | c < d && Bit(present, c)
  }

  lemma {:induction false} RankCounts(present: seq<bv8>, d: nat)
    requires d <= 8 * |present|
    ensures Rank(present, d) == |Marked(present, d)|
  {
    if d > 0 {
      RankCounts(present, d - 1);
      assert Marked(present, d) == Marked(present, d - 1) + (if Bit(present, d - 1) then {d - 1} else {});
    }
  }

  /** A proof is refused exactly when its bitmap has the wrong length or marks another number of
      depths than it has hashes. */
  lemma {:induction false} ExpandedExact(proof: MapProof, width: nat)
    ensures Expanded(proof, width).None? <==>
            |proof.present| != width || |Marked(proof.present, 8 * width)| != |proof.siblings|
  {
    if |proof.present| == width { RankCounts(proof.present, 8 * width); }
  }

  /** Of a proof that is not refused, a marked depth has the hash of its rank, and any other the
      root of an empty subtree one level below it. */
  lemma {:induction false} ExpandedEntry(proof: MapProof, width: nat, d: nat)
    requires Expanded(proof, width).Some? && d < 8 * width
    ensures var full := Expanded(proof, width).value;
            && |full| == 8 * width
            && if Bit(proof.present, d) then
                 && |Marked(proof.present, d)| < |proof.siblings|
                 && full[d] == proof.siblings[|Marked(proof.present, d)|]
               else full[d] == Default(8 * width - d - 1)
  {
    RankCounts(proof.present, d);
    assert Expanded(proof, width).value[d] == ExpandedAt(proof, width, d);
    if Bit(proof.present, d) { RankStrict(proof.present, d, 8 * width); }
  }

  /** The hashes of the marked depths, in ascending depth. */
  function Selected(present: seq<bv8>, full: seq<Digest>, d: nat): (hashes: seq<Digest>)
    requires d <= 8 * |present| == |full|
  {
    if d == 0 then []
    else Selected(present, full, d - 1) + (if Bit(present, d - 1) then [full[d - 1]] else [])
  }

  lemma {:induction false} SelectedAt(present: seq<bv8>, full: seq<Digest>, c: nat, d: nat)
    requires c < d <= 8 * |present| == |full| && Bit(present, c)
    ensures |Selected(present, full, d)| == Rank(present, d) && Rank(present, c) < Rank(present, d)
    ensures Selected(present, full, d)[Rank(present, c)] == full[c]
    decreases d
  {
    SelectedSize(present, full, d);
    SelectedSize(present, full, d - 1);
    RankStrict(present, c, d);
    if c < d - 1 { SelectedAt(present, full, c, d - 1); }
  }

  lemma {:induction false} SelectedSize(present: seq<bv8>, full: seq<Digest>, d: nat)
    requires d <= 8 * |present| == |full|
    ensures |Selected(present, full, d)| == Rank(present, d)
  {
    if d > 0 { SelectedSize(present, full, d - 1); }
  }

  /** MAIN RESULT. Compaction is sound and complete: a proof that leaves out any of the genuine
      siblings that are roots of empty subtrees is worth the full one. */
  lemma CompactedProofExact(revoked: set<BitKey>, key: BitKey, proof: MapProof, width: nat)
    requires |key| == 8 * width && |proof.present| == width
    requires proof.siblings == Selected(proof.present, PathSiblings(revoked, key), 8 * width)
    requires forall d: nat :: d < 8 * width && !Bit(proof.present, d) ==>
               PathSiblings(revoked, key)[d] == Default(8 * width - d - 1)
    ensures Expanded(proof, width) == Some(PathSiblings(revoked, key))
    ensures AcceptsRevoked(Dense(revoked, [], 8 * width), key, proof, width) <==> key in revoked
    ensures AcceptsLive(Dense(revoked, [], 8 * width), key, proof, width) <==> key !in revoked
  {
    var full := PathSiblings(revoked, key);
    SelectedSize(proof.present, full, 8 * width);
    forall d: nat | d < 8 * width ensures ExpandedAt(proof, width, d) == full[d] {
      if Bit(proof.present, d) { SelectedAt(proof.present, full, d, 8 * width); }
    }
    assert Expanded(proof, width).value == full;
    MapProofExact(revoked, key, proof, width);
  }

  /** The root a proof recomputes, if it is well formed. */
  function Recomputed(key: BitKey, leaf: Digest, proof: MapProof, width: nat): Option<Digest>
    requires |key| == 8 * width
  {
    match Expanded(proof, width)
    case None => None
    case Some(siblings) => Some(FoldKey(key, leaf, siblings, 0))
  }

  /** The verdict of `verify_inclusion`: the key's slot holds its leaf. */
  predicate AcceptsRevoked(root: Digest, key: BitKey, proof: MapProof, width: nat)
    requires |key| == 8 * width
  {
    Recomputed(key, KeyLeaf(key), proof, width) == Some(root)
  }

  /** The verdict of `verify_non_inclusion`: the key's slot is empty. */
  predicate AcceptsLive(root: Digest, key: BitKey, proof: MapProof, width: nat)
    requires |key| == 8 * width
  {
    Recomputed(key, EmptyLeaf(), proof, width) == Some(root)
  }

  /** The fold from the deepest level up. */
  method RecomputeRoot(key: BitKey, claimedLeaf: Digest, proof: MapProof, width: nat) returns (root: Option<Digest>)
    requires |key| == 8 * width
    ensures root == Recomputed(key, claimedLeaf, proof, width)
  {
    var defaults := NewDefaults(width);
    var full := Expand(proof, defaults, width);
    if full.None? { return None; }
    var cur := FoldUp(key, claimedLeaf, full.value);
    root := Some(cur);
  }

  /** From the leaf to the root, one sibling per depth. */
  method FoldUp(key: BitKey, leaf: Digest, siblings: seq<Digest>) returns (cur: Digest)
    requires |siblings| == |key|
    ensures cur == FoldKey(key, leaf, siblings, 0)
  {
    var depth := |key|;
    cur := leaf;
    while depth > 0
      invariant 0 <= depth <= |key|
      invariant cur == FoldKey(key, leaf, siblings, depth)
    {
      depth := depth - 1;
      cur := if !key[depth] then NodeHash(cur, siblings[depth]) else NodeHash(siblings[depth], cur);
    }
  }

  /** MAIN RESULT. Against the root of a real map, whatever the proof: inclusion is accepted
      exactly for a revoked key with the map's own siblings, non-inclusion exactly for a key
      that is not revoked with the map's own siblings. */
  lemma MapProofExact(revoked: set<BitKey>, key: BitKey, proof: MapProof, width: nat)
    requires |key| == 8 * width
    ensures AcceptsRevoked(Dense(revoked, [], 8 * width), key, proof, width) <==>
            key in revoked && Expanded(proof, width) == Some(PathSiblings(revoked, key))
    ensures AcceptsLive(Dense(revoked, [], 8 * width), key, proof, width) <==>
            key !in revoked && Expanded(proof, width) == Some(PathSiblings(revoked, key))
  {
    match Expanded(proof, width)
    case None =>
    case Some(siblings) =>
      FoldExact(revoked, key, KeyLeaf(key), siblings);
      FoldExact(revoked, key, EmptyLeaf(), siblings);
  }

  /** Whatever the root, genuine or not, no key can be shown both revoked and live. */
  lemma NoCrossOver(root: Digest, key: BitKey, inclusion: MapProof, absence: MapProof, width: nat)
    requires |key| == 8 * width && AcceptsRevoked(root, key, inclusion, width)
    ensures !AcceptsLive(root, key, absence, width)
  {
    if AcceptsLive(root, key, absence, width) {
      FoldInjective(key, KeyLeaf(key), Expanded(inclusion, width).value, EmptyLeaf(), Expanded(absence, width).value,
                    0);
    }
  }

  /** Where a missing key belongs in a sorted list: after every smaller one. */
  function InsertionPoint(keys: seq<BitKey>, key: BitKey): (pos: nat)
    requires forall i :: 0 <= i < |keys| ==> |keys[i]| == |key|
    ensures pos <= |keys|
    ensures forall i :: 0 <= i < pos ==> BitLess(keys[i], key)
    ensures pos < |keys| ==> !BitLess(keys[pos], key)
  {
    if keys == [] || !BitLess(keys[0], key) then 0 else 1 + InsertionPoint(keys[1..], key)
  }

  lemma InsertSorted(keys: seq<BitKey>, key: BitKey, width: nat)
    requires Sorted(keys, width) && key !in keys && |key| == 8 * width
    ensures var pos := InsertionPoint(keys, key); Sorted(keys[..pos] + [key] + keys[pos..], width)
  {
    var pos := InsertionPoint(keys, key);
    var grown := keys[..pos] + [key] + keys[pos..];
    forall i | 0 <= i < |grown|
      ensures grown[i] == if i < pos then keys[i] else if i == pos then key else keys[i - 1]
    {}
    forall i | pos <= i < |keys| ensures BitLess(key, keys[i]) {
      BitLessTotal(keys[pos], key);
      if i > pos {
        assert BitLess(keys[pos], keys[i]);
        BitLessTransitive(key, keys[pos], keys[i], 0);
      }
    }
    forall i, j | 0 <= i < j < |grown| ensures BitLess(grown[i], grown[j]) {
      if j < pos {
        assert BitLess(keys[i], keys[j]);
      } else if pos < i {
        assert BitLess(keys[i - 1], keys[j - 1]);
      } else if i < pos < j {
        assert BitLess(keys[i], keys[j - 1]);
      }
    }
  }

  class RevocationMap {
    const width: nat
    var keys: seq<BitKey>
    const defaults: array<Digest>

    ghost predicate Valid()
      reads this, defaults
    {
      GoodDefaults(defaults[..], width) && Sorted(keys, width)
    }

    constructor ()
      ensures Valid() && fresh(defaults) && width == KEY_WIDTH && keys == []
    {
      width := KEY_WIDTH;
      keys := [];
      var table := NewDefaults(KEY_WIDTH);
      defaults := table;
    }

    /** Inserts a key in sorted position; revoking twice changes nothing. */
    method Revoke(key: BitKey)
      requires Valid() && |key| == 8 * width
      modifies this`keys
      ensures Valid()
      ensures KeySet(keys) == KeySet(old(keys)) + {key}
      ensures key in old(keys) ==> keys == old(keys)
    {
      if key !in keys {
        var pos := InsertionPoint(keys, key);
        InsertSorted(keys, key, width);
        keys := keys[..pos] + [key] + keys[pos..];
        assert forall k :: k in keys <==> k in old(keys) || k == key;
      }
    }

    predicate Contains(key: BitKey)
      reads this
      ensures Contains(key) <==> key in KeySet(keys)
    {
      key in keys
    }

    function Root(): (root: Digest)
      requires Valid()
      reads this, defaults
      ensures root == Dense(KeySet(keys), [], 8 * width)
    {
      SubtreeRootIsDense(defaults[..], keys, [], KeySet(keys), width);
      SubtreeRoot(defaults[..], keys, 0, width)
    }

    /** Collects the siblings along a key's path and marks their depths in the bitmap. */
    method CollectSiblings(span: seq<BitKey>, depth: nat, key: BitKey, collected: seq<Digest>, present: array<bv8>,
                           ghost revoked: set<BitKey>)
        returns (siblings: seq<Digest>)
      requires Valid() && |key| == 8 * width && present.Length == width && depth <= 8 * width
      requires Span(span, key[..depth], revoked, width)
      modifies present
      ensures siblings == collected + PathSiblings(revoked, key)[depth..]
      ensures MarkedFrom(old(present[..]), depth, present[..])
      decreases 8 * width - depth
    {
      if depth == 8 * width {
        assert collected == collected + PathSiblings(revoked, key)[depth..];
        return collected;
      }
      var split := PartitionPoint(span, depth);
      var same, other := span[..split], span[split..];
      if key[depth] { same, other := other, same; }
      PathSplit(defaults[..], span, depth, key, same, other, revoked, width);
      var sibling := SubtreeRoot(defaults[..], other, depth + 1, width);
      siblings := collected;
      if sibling != defaults[8 * width - depth] {
        present[depth / 8] := SetByteBit(present[depth / 8], depth % 8);
        siblings := siblings + [sibling];
      }
      ghost var marked := present[..];
      SetBitSets(old(present[..]), depth, marked);
      siblings := CollectSiblings(same, depth + 1, key, siblings, present, revoked);
      MarkedDown(old(present[..]), depth, marked, present[..]);
      PushSibling(collected, PathSiblings(revoked, key), depth);
    }

    /** The proof for a key carries every sibling of its path. */
    method Prove(key: BitKey) returns (proof: MapProof)
      requires Valid() && |key| == 8 * width
      ensures Valid()
      ensures Expanded(proof, width) == Some(PathSiblings(KeySet(keys), key))
      ensures |proof.siblings| == 8 * width
      ensures AcceptsRevoked(Root(), key, proof, width) <==> key in KeySet(keys)
      ensures AcceptsLive(Root(), key, proof, width) <==> key !in KeySet(keys)
    {
      var present := new bv8[width](_ => 0);
      assert Span(keys, key[..0], KeySet(keys), width);
      var siblings := CollectSiblings(keys, 0, key, [], present, KeySet(keys));
      assert siblings == PathSiblings(KeySet(keys), key);
      proof := MapProof(present[..], siblings);
      ExpandedFull(proof, width);
      MapProofExact(KeySet(keys), key, proof, width);
    }
  }

  /** The bitmap with every depth from `depth` on switched on. */
  ghost predicate MarkedFrom(before: seq<bv8>, depth: nat, after: seq<bv8>) {
    && |after| == |before|
    && forall d :: 0 <= d < 8 * |before| ==> (Bit(after, d) <==> d >= depth || Bit(before, d))
  }

  lemma SetBitSets(before: seq<bv8>, depth: nat, after: seq<bv8>)
    requires depth < 8 * |before| && after == before[depth / 8 := SetByteBit(before[depth / 8], depth % 8)]
    ensures forall d :: 0 <= d < 8 * |before| ==> (Bit(after, d) <==> d == depth || Bit(before, d))
  {
    forall d | 0 <= d < 8 * |before| ensures Bit(after, d) <==> d == depth || Bit(before, d) {
      if d / 8 == depth / 8 { SetByteBitSets(before[depth / 8], depth % 8, d % 8); }
    }
  }

  lemma MarkedDown(before: seq<bv8>, depth: nat, marked: seq<bv8>, after: seq<bv8>)
    requires |before| == |marked| && MarkedFrom(marked, depth + 1, after)
    requires forall d :: 0 <= d < 8 * |before| ==> (Bit(marked, d) <==> d == depth || Bit(before, d))
    ensures MarkedFrom(before, depth, after)
  {}

  /** One step down a key's path: the key's own side is the span below, and the other side's
      root is the path's sibling, which the comparison with the parent's default never drops. */
  lemma {:induction false} PathSplit(defaults: seq<Digest>, span: seq<BitKey>, depth: nat, key: BitKey,
                                     same: seq<BitKey>, other: seq<BitKey>, revoked: set<BitKey>, width: nat)
    requires GoodDefaults(defaults, width) && |key| == 8 * width && depth < 8 * width
    requires Span(span, key[..depth], revoked, width)
    requires var split := PartitionPoint(span, depth);
             if key[depth] then same == span[split..] && other == span[..split]
             else same == span[..split] && other == span[split..]
    ensures Span(same, key[..depth + 1], revoked, width)
    ensures forall i :: 0 <= i < |other| ==> |other[i]| == 8 * width
    ensures SubtreeRoot(defaults, other, depth + 1, width) == PathSiblings(revoked, key)[depth]
    ensures SubtreeRoot(defaults, other, depth + 1, width) != defaults[8 * width - depth]
  {
    var prefix := key[..depth];
    SplitSides(span, prefix, key[depth], same, other, revoked, width);
    assert key[..depth + 1] == prefix + [key[depth]];
    OtherSide(defaults, other, prefix + [!key[depth]], depth, key, revoked, width);
  }

  /** The side of a span that a key's next bit chooses, and the other one. */
  lemma SplitSides(span: seq<BitKey>, prefix: seq<bool>, b: bool, same: seq<BitKey>,
                   other: seq<BitKey>, revoked: set<BitKey>, width: nat)
    requires Span(span, prefix, revoked, width) && |prefix| < 8 * width
    requires var split := PartitionPoint(span, |prefix|);
             if b then same == span[split..] && other == span[..split]
             else same == span[..split] && other == span[split..]
    ensures Span(same, prefix + [b], revoked, width) && Span(other, prefix + [!b], revoked, width)
  {
    SpanSplit(span, prefix, revoked, width);
  }

  lemma OtherSide(defaults: seq<Digest>, other: seq<BitKey>, prefix: seq<bool>, depth: nat,
                  key: BitKey, revoked: set<BitKey>, width: nat)
    requires GoodDefaults(defaults, width) && |key| == 8 * width && depth < 8 * width
    requires prefix == key[..depth] + [!key[depth]] && Span(other, prefix, revoked, width)
    ensures SubtreeRoot(defaults, other, depth + 1, width) == PathSiblings(revoked, key)[depth]
    ensures SubtreeRoot(defaults, other, depth + 1, width) != defaults[8 * width - depth]
  {
    SubtreeRootIsDense(defaults, other, prefix, revoked, width);
    assert PathSiblings(revoked, key)[depth] == SiblingAt(revoked, key, depth);
    SiblingNeverElided(revoked, key, depth);
    assert defaults[8 * width - depth] == Default(8 * width - depth);
  }

  lemma PushSibling(collected: seq<Digest>, path: seq<Digest>, depth: nat)
    requires depth < |path|
    ensures (collected + [path[depth]]) + path[depth + 1..] == collected + path[depth..]
  {
    assert path[depth..] == [path[depth]] + path[depth + 1..];
  }

  lemma {:induction false} RankFull(present: seq<bv8>, d: nat)
    requires d <= 8 * |present| && forall c :: 0 <= c < 8 * |present| ==> Bit(present, c)
    ensures Rank(present, d) == d
  {
    if d > 0 { RankFull(present, d - 1); }
  }

  lemma ExpandedFull(proof: MapProof, width: nat)
    requires |proof.present| == width && |proof.siblings| == 8 * width
    requires forall c :: 0 <= c < 8 * width ==> Bit(proof.present, c)
    ensures Expanded(proof, width) == Some(proof.siblings)
  {
    RankFull(proof.present, 8 * width);
    forall d | 0 <= d < 8 * width ensures ExpandedAt(proof, width, d) == proof.siblings[d] {
      RankFull(proof.present, d);
    }
    assert Expanded(proof, width).value == proof.siblings;
  }
}
