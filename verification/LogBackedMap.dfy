/** The log-backed revocation map: every published map root is a leaf of the append-only log. */
module LogBackedMap {
  import opened Wrappers
  import opened Digests
  import opened MerkleTree
  import opened Inclusion
  import opened Signatures
  import opened WitnessLog
  import opened MapTree
  import opened RevocationMaps

  const CHECKPOINT_DOMAIN: string := "indexone-revlog/MapCheckpoint/v1"
  const NONCE_DOMAIN: string := "indexone-revlog/checkpoint-nonce/v1"

  /** A commitment to the map at one epoch. */
  datatype MapCheckpoint = MapCheckpoint(epoch: nat, mapRoot: Digest, prevLogRoot: Digest)

  function CheckpointTag(): Digest {
    TaggedHash(CHECKPOINT_DOMAIN, [], [])
  }

  function CheckpointDigest(cp: MapCheckpoint): Digest {
    TaggedHash(CHECKPOINT_DOMAIN, [cp.epoch], [cp.mapRoot, cp.prevLogRoot])
  }

  /** The log leaf that commits a checkpoint. */
  function CheckpointReceipt(cp: MapCheckpoint): Receipt {
    Receipt(CheckpointTag(), CheckpointDigest(cp), TaggedHash(NONCE_DOMAIN, [cp.epoch], [cp.mapRoot]), cp.prevLogRoot)
  }

  /** A leaf commits one checkpoint only. */
  lemma CheckpointReceiptInjective(a: MapCheckpoint, b: MapCheckpoint)
    ensures CheckpointReceipt(a) == CheckpointReceipt(b) <==> a == b
  {
    if CheckpointReceipt(a) == CheckpointReceipt(b) {
      assert [a.epoch][0] == [b.epoch][0];
      assert [a.mapRoot, a.prevLogRoot][0] == [b.mapRoot, b.prevLogRoot][0];
    }
  }

  datatype LogBackedProof = LogBackedProof(
    checkpoint: MapCheckpoint,
    mapProof: MapProof,
    inclusion: InclusionProof,
    sth: SignedTreeHead)

  /** The checkpoint is well formed, its leaf is in the tree of the head, and the head is signed. */
  predicate MapRootIsLogged(schemes: Schemes<TreeHead>, proof: LogBackedProof, logKey: PublicKey) {
    var receipt := CheckpointReceipt(proof.checkpoint);
    && receipt.chainDigest == CheckpointTag()
    && receipt.actionDigest == CheckpointDigest(proof.checkpoint)
    && VerifySignedHead(schemes, proof.sth, logKey)
    && AcceptsInclusion(receipt, proof.inclusion, proof.sth.head.root)
  }

  predicate VerifyNotRevoked(schemes: Schemes<TreeHead>, proof: LogBackedProof, key: BitKey, logKey: PublicKey,
                             width: nat)
    requires |key| == 8 * width
  {
    MapRootIsLogged(schemes, proof, logKey) && AcceptsLive(proof.checkpoint.mapRoot, key, proof.mapProof, width)
  }

  predicate VerifyRevoked(schemes: Schemes<TreeHead>, proof: LogBackedProof, key: BitKey, logKey: PublicKey, width: nat)
    requires |key| == 8 * width
  {
    MapRootIsLogged(schemes, proof, logKey) && AcceptsRevoked(proof.checkpoint.mapRoot, key, proof.mapProof, width)
  }

  /** One published checkpoint with the key set it froze. */
  datatype Published = Published(checkpoint: MapCheckpoint, frozen: set<BitKey>)

  /** The receipts of a publication history, in log order. */
  function LogOf(history: seq<Published>): (log: seq<Receipt>)
    ensures |log| == |history|
  {
    seq(|history|, i requires 0 <= i < |history| => CheckpointReceipt(history[i].checkpoint))
  }

  /** What every reachable history satisfies: epochs count up from 0, each root is the root of
      the frozen set, each checkpoint names the log root it was appended to, and sets only grow. */
  ghost predicate GoodHistory(history: seq<Published>, width: nat) {
    && (forall i :: 0 <= i < |history| ==> GoodEntry(history, i, width))
    && (forall i, j {:trigger history[i].frozen, history[j].frozen} ::
          0 <= i < j < |history| ==> history[i].frozen <= history[j].frozen)
  }

  ghost predicate GoodEntry(history: seq<Published>, i: nat, width: nat)
    requires i < |history|
  {
    && history[i].checkpoint.epoch == i
    && history[i].checkpoint.mapRoot == Dense(history[i].frozen, [], 8 * width)
    && history[i].checkpoint.prevLogRoot == Mth(LeafHashes(LogOf(history[..i])))
  }

  lemma HistoryGrows(history: seq<Published>, entry: Published, width: nat)
    requires GoodHistory(history, width)
    requires entry.checkpoint ==
             MapCheckpoint(|history|, Dense(entry.frozen, [], 8 * width), Mth(LeafHashes(LogOf(history))))
    requires forall i :: 0 <= i < |history| ==> history[i].frozen <= entry.frozen
    ensures GoodHistory(history + [entry], width)
    ensures LeafHashes(LogOf(history + [entry])) ==
            LeafHashes(LogOf(history)) + [HashReceipt(CheckpointReceipt(entry.checkpoint))]
  {
    var grown := history + [entry];
    forall i | 0 <= i < |grown| ensures GoodEntry(grown, i, width) {
      assert grown[..i] == if i < |history| then history[..i] else history;
      if i < |history| { assert GoodEntry(history, i, width); }
    }
  }

  /** Against the signed head of a real log, a map root is logged exactly when the signature holds
      and the checkpoint's own leaf is in the log, reached by a genuine audit path. */
  lemma MapRootLoggedExact(schemes: Schemes<TreeHead>, proof: LogBackedProof, logKey: PublicKey, log: seq<Receipt>)
    requires |log| <= WORD && proof.sth.head == TreeHead(|log|, Mth(LeafHashes(log)))
    ensures MapRootIsLogged(schemes, proof, logKey) <==>
            && VerifySignature(schemes, proof.sth.head, proof.sth.signature, logKey) == Ok(true)
            && proof.inclusion.leafIndex < proof.inclusion.treeSize
            && exists i :: && 0 <= i < |log| && log[i] == CheckpointReceipt(proof.checkpoint)
                           && proof.inclusion.path == AuditPath(LeafHashes(log), i)
  {
    InclusionExact(CheckpointReceipt(proof.checkpoint), proof.inclusion, log);
  }

  /** The leaves of a publication history name, each, the root of the log before it, and its
      checkpoint under the two domains. */
  lemma CheckpointLeaves(history: seq<Published>, i: nat, width: nat)
    requires GoodHistory(history, width) && i < |history|
    ensures var cp, leaf := history[i].checkpoint, LogOf(history)[i];
            && leaf.prevRoot == Mth(LeafHashes(LogOf(history)[..i]))
            && leaf.chainDigest == TaggedHash("indexone-revlog/MapCheckpoint/v1", [], [])
            && leaf.actionDigest == TaggedHash("indexone-revlog/MapCheckpoint/v1", [i], [cp.mapRoot, leaf.prevRoot])
            && leaf.nonce == TaggedHash("indexone-revlog/checkpoint-nonce/v1", [i], [cp.mapRoot])
            && cp.mapRoot == Dense(history[i].frozen, [], 8 * width)
  {
    assert GoodEntry(history, i, width);
    assert LogOf(history)[..i] == LogOf(history[..i]);
  }

  /** The log key signs only heads of this history. */
  ghost predicate HonestLogKey(schemes: Schemes<TreeHead>, logKey: PublicKey, history: seq<Published>) {
    forall head, signature :: VerifySignature(schemes, head, signature, logKey) == Ok(true) ==>
      exists n :: 0 <= n <= |history| && head == TreeHead(n, Mth(LeafHashes(LogOf(history[..n]))))
  }

  /** MAIN RESULT. Under a key that signs only heads of one history, an accepted status proof,
      however it was made, names a checkpoint that history really published, and its verdict is
      membership in the set frozen there. */
  lemma LoggedStatusSound(schemes: Schemes<TreeHead>, logKey: PublicKey, history: seq<Published>,
                          proof: LogBackedProof, key: BitKey, width: nat) returns (i: nat)
    requires |key| == 8 * width && GoodHistory(history, width) && |history| <= MAX_LEAVES
    requires HonestLogKey(schemes, logKey, history)
    requires VerifyRevoked(schemes, proof, key, logKey, width) || VerifyNotRevoked(schemes, proof, key, logKey, width)
    ensures i < |history| && proof.checkpoint == history[i].checkpoint && proof.checkpoint.epoch == i
    ensures VerifyRevoked(schemes, proof, key, logKey, width) ==> key in history[i].frozen
    ensures VerifyNotRevoked(schemes, proof, key, logKey, width) ==> key !in history[i].frozen
  {
    var receipt := CheckpointReceipt(proof.checkpoint);
    var n :| 0 <= n <= |history| && proof.sth.head == TreeHead(n, Mth(LeafHashes(LogOf(history[..n]))));
    var log := LogOf(history[..n]);
    InclusionExact(receipt, proof.inclusion, log);
    i :| 0 <= i < n && log[i] == receipt;
    assert log[i] == CheckpointReceipt(history[i].checkpoint);
    CheckpointReceiptInjective(proof.checkpoint, history[i].checkpoint);
    assert GoodEntry(history, i, width);
    MapProofExact(history[i].frozen, key, proof.mapProof, width);
  }

  class LogBackedRevocation {
    const revocations: RevocationMap
    const log: Witness
    var epoch: nat
    var latest: Option<(MapCheckpoint, nat)>
    ghost var history: seq<Published>

    ghost predicate Valid()
      reads this, revocations, revocations.defaults, log
    {
      && revocations.Valid() && log.Valid()
      && GoodHistory(history, revocations.width)
      && log.leafHashes == LeafHashes(LogOf(history))
      && epoch == |history|
      && latest == (if history == [] then None else Some((history[|history| - 1].checkpoint, |history| - 1)))
      && forall i :: 0 <= i < |history| ==> history[i].frozen <= KeySet(revocations.keys)
    }

    constructor ()
      ensures Valid() && history == [] && fresh(revocations) && fresh(revocations.defaults) && fresh(log)
      ensures revocations.width == KEY_WIDTH && revocations.keys == []
    {
      revocations := new RevocationMap();
      log := new Witness();
      epoch, latest := 0, None;
      history := [];
      new;
      assert LeafHashes(LogOf([])) == [];
    }

    /** Revoking changes the map only; the log is untouched until the next checkpoint. */
    method Revoke(key: BitKey)
      requires Valid() && |key| == 8 * revocations.width
      modifies revocations`keys
      ensures Valid() && KeySet(revocations.keys) == KeySet(old(revocations.keys)) + {key}
    {
      revocations.Revoke(key);
    }

    /** Freezes the current map root into the log and signs the new head. */
    method PublishCheckpoint(signer: Signer<TreeHead>) returns (sth: SignedTreeHead)
      requires Valid() && |history| < MAX_LEAVES && forall head :: signer.sign(head).Ok?
      modifies this, log
      ensures Valid()
      ensures |history| == |old(history)| + 1 && history[..|old(history)|] == old(history)
      ensures history[|history| - 1].frozen == KeySet(revocations.keys)
      ensures sth.head == HeadOf(LeafHashes(LogOf(history))) && signer.sign(sth.head) == Ok(sth.signature)
    {
      var logRoot := log.Root();
      var checkpoint := MapCheckpoint(epoch, revocations.Root(), logRoot);
      HistoryGrows(history, Published(checkpoint, KeySet(revocations.keys)), revocations.width);
      var leafIndex := log.Append(CheckpointReceipt(checkpoint));
      latest := Some((checkpoint, leafIndex));
      history := history + [Published(checkpoint, KeySet(revocations.keys))];
      epoch := epoch + 1;
      sth := log.SignedHead(signer);
    }

    /** A status proof against the latest checkpoint. It is withheld exactly when nothing was
        published yet or the set of revoked keys has changed since; a served proof verifies
        with the right verdict for the key. */
    method Prove(key: BitKey, signer: Signer<TreeHead>) returns (proof: Option<LogBackedProof>)
      requires Valid() && |key| == 8 * revocations.width && forall head :: signer.sign(head).Ok?
      modifies log
      ensures Valid()
      ensures proof.None? <==> history == [] || history[|history| - 1].frozen != KeySet(revocations.keys)
      ensures proof.Some? ==> ServesVerdict(proof.value, key, signer, revocations.width, KeySet(revocations.keys))
    {
      if latest.None? { return None; }
      var (checkpoint, leafIndex) := latest.value;
      ghost var entry := history[|history| - 1];
      assert GoodEntry(history, |history| - 1, revocations.width);
      FrozenDecided(entry.frozen, revocations.keys, revocations.width);
      if revocations.Root() != checkpoint.mapRoot { return None; }
      var inclusion := log.ProveInclusion(leafIndex);
      if inclusion.None? { return None; }
      var mapProof := revocations.Prove(key);
      var sth := log.SignedHead(signer);
      proof := Some(LogBackedProof(checkpoint, mapProof, inclusion.value, sth));
      ServedProofVerifies(history, proof.value, key, signer, revocations.width, KeySet(revocations.keys));
    }
  }

  /** A proof assembled from the latest checkpoint, the genuine paths and a signed head serves
      the right verdict. */
  lemma ServedProofVerifies(history: seq<Published>, proof: LogBackedProof, key: BitKey,
                            signer: Signer<TreeHead>, width: nat,
                            revoked: set<BitKey>)
    requires |key| == 8 * width && 0 < |history| <= MAX_LEAVES
    requires proof.checkpoint == history[|history| - 1].checkpoint &&
             proof.checkpoint.mapRoot == Dense(revoked, [], 8 * width)
    requires proof.inclusion ==
             InclusionProof(|history| - 1, |history|, AuditPath(LeafHashes(LogOf(history)), |history| - 1))
    requires Expanded(proof.mapProof, width) == Some(PathSiblings(revoked, key))
    requires proof.sth.head == HeadOf(LeafHashes(LogOf(history))) &&
             signer.sign(proof.sth.head) == Ok(proof.sth.signature)
    ensures ServesVerdict(proof, key, signer, width, revoked)
  {
    var log := LogOf(history);
    assert log[|history| - 1] == CheckpointReceipt(proof.checkpoint);
    InclusionExact(CheckpointReceipt(proof.checkpoint), proof.inclusion, log);
    MapProofExact(revoked, key, proof.mapProof, width);
    forall schemes | Genuine(schemes, signer)
      ensures VerdictIs(schemes, proof, key, signer.publicKey, width, key in revoked)
    {
      assert VerifySignedHead(schemes, proof.sth, signer.publicKey);
      assert MapRootIsLogged(schemes, proof, signer.publicKey);
    }
  }

  /** The proof verifies as revoked or as live, according to `revoked` and never both ways. */
  ghost predicate VerdictIs(schemes: Schemes<TreeHead>, proof: LogBackedProof, key: BitKey, logKey: PublicKey,
                            width: nat, revoked: bool)
    requires |key| == 8 * width
  {
    && (VerifyRevoked(schemes, proof, key, logKey, width) <==> revoked)
    && (VerifyNotRevoked(schemes, proof, key, logKey, width) <==> !revoked)
  }

  /** Whatever the signature schemes, as long as the signer is genuine under them. */
  ghost predicate ServesVerdict(proof: LogBackedProof, key: BitKey, signer: Signer<TreeHead>, width: nat,
                                revoked: set<BitKey>)
    requires |key| == 8 * width
  {
    forall schemes :: Genuine(schemes, signer) ==>
      VerdictIs(schemes, proof, key, signer.publicKey, width, key in revoked)
  }

  /** Comparing roots decides whether the map has changed since a set was frozen. */
  lemma FrozenDecided(frozen: set<BitKey>, keys: seq<BitKey>, width: nat)
    requires Sorted(keys, width) && frozen <= KeySet(keys)
    ensures Dense(frozen, [], 8 * width) == Dense(KeySet(keys), [], 8 * width) <==> frozen == KeySet(keys)
  {
    DenseInjective(frozen, KeySet(keys), 8 * width);
  }
}
