# Verified model of the IndexOne trust core

This project models the IndexOne repository's trust core in Dafny and proves what the layers
promise each other: a transparency log whose proofs mean prefix and membership, a sparse Merkle
revocation map whose proofs decide membership, a map pinned in a log, witnesses that cosign
checkpoints, a log file that survives crashes, delegation chains that only narrow, and the
verifier that composes them.

Run `dafny verify dfyconfig.toml` to check everything.

## How the source is represented

* **Hashes** are free terms (`Digests.Digest`, `Chains.BlockHash`): a digest is the term of the
  hash call that produced it, so hashing is injective and two domain tags never meet. `Raw`
  stands for 32 bytes nobody obtained by hashing, so every theorem about "any proof whatever"
  includes proofs made of arbitrary bytes. The digest of a chain, the purpose-bound digest of an
  action and the revocation id of a signature are function parameters; the one lemma that needs
  the first two to be injective says so (`CollisionFree`), and no lemma needs it of the third.
* **Signatures** are a parameter: two component verifiers (`Signatures.Schemes`) from message,
  signature and key to a verdict or an error. A signer is `Genuine` when its signatures verify
  under its own key. Where a theorem needs unforgeability it is stated as what a key has signed
  (`HonestLogKey`, `HonestOperator`, `Honest`), never as an axiom about a scheme.
* **Encodings** (JCS, JSON, base64, decimal sizes) are either taken as injective by letting the
  signed message be the value itself, or passed in as a codec with a left inverse
  (`Notes.NoteCodec`, `DurableLog.ReceiptCodec`); of base64 it is also used that its alphabet has no
  space. The hybrid signature frame, the log file's
  length-prefixed frame and the line layout of signed notes are modelled byte by byte and
  character by character.
* **State** that the source updates in place is a class whose methods are proved against
  specification functions: `WitnessLog.Witness` with its memo table, `RevocationMaps.RevocationMap`,
  `LogBackedMap.LogBackedRevocation`, `Cosigning.CosigningWitness`, `Chains.Chain`,
  `WitnessService.DurableWitness`, `Snapshots.RevocationLog` and `Snapshots.SnapshotChecker`.
  Loops of the source are loops here, with invariants.
* **Map keys** are their bits, most significant first. `KeyOrder.ByteOrderIsBitOrder` shows that
  the byte order the source sorts by is the order of those bits. The tree depth is a parameter
  `8 * width`; the deployed map has `width` 32, that is 256 levels.

## Modules

| module | holds |
|---|---|
| `Digests`, `MerkleTree` | hash terms; the tree hash of section 2.1 of RFC 6962 and its description level by level |
| `Consistency`, `Inclusion`, `Gossip` | the two proof systems of the log and the reconciliation of two heads |
| `WitnessLog` | the log class and the proof-checking loops |
| `KeyOrder`, `MapTree`, `RevocationMaps` | key order, the dense reference tree, the sparse map class and its proofs |
| `LogBackedMap` | the map pinned in the log |
| `Notes`, `Cosigning` | signed notes, the cosigning witness, the quorum |
| `DurableLog`, `WitnessService` | the log file and the service around it |
| `Scopes`, `Chains` | permissions, scopes and delegation chains |
| `Attestations`, `Verifier` | completion attestations and the composed verifier |
| `RevocationChecks`, `Snapshots` | revocation lookups and the signed snapshot |
| `Signatures`, `Wrappers` | signature dispatch and the hybrid frame; options and results |

## What the proofs found

* **The elision test never succeeds.** `collect_siblings` compares a sibling, which is a subtree
  one level below `depth`, with the default for `depth` itself. `MapTree.SiblingNeverElided` proves
  the two never agree, so every proof carries all 256 siblings, although the comments in
  `core/revmap/src/lib.rs` promise compaction. Verification is right for full proofs and for every
  compacted form alike (`RevocationMaps.MapProofExact`, `RevocationMaps.CompactedProofExact`).
* **`leaf_index` is not evidence of a position.** An accepted proof stays accepted under every other
  index below its claimed size (`Inclusion.LeafIndexUnbound`); `Inclusion.WrongIndexAccepted` shows it
  on two leaves. The index is right exactly when the path turns left and right as index and log size
  dictate, which a caller can compare (`Inclusion.LeafIndexExact`). A log of the witness service holds
  no receipt twice, and there the comparison decides the position (`WitnessService.ServedIndexExact`).
* **A cosigner that has seen nothing takes any root.** At size 0 any two roots can follow each other
  in one rule-abiding run (`Cosigning.AnyRootsAtSizeZero`). Run theorems are therefore about non-empty
  sizes; from the first non-empty one on they hold whatever that first root was.
* **Cosigning a note that lost its final line break destroys signatures.** `cosign` still succeeds, but
  the new line runs on from the last one: neither is a signature any more
  (`Notes.UnterminatedCosignLosesAll`). `Notes.CosignExact` says for every note and name which
  signatures the result carries.
* **The "disagreeing checkpoint" exit of `verify_quorum` is dead**: every signature on a note is
  over the same body (`Cosigning.VerifyQuorum`).
* **A signed note does not read back for every origin and key name.** `Notes.NoteRoundTrip` gives the
  exact condition on the two strings. The signed body alone reads back exactly when the origin is one
  line (`Notes.BodyRoundTrip`); line breaks in an origin are read as further fields, so that the body
  commits to another size and root (`Notes.BrokenOriginReadsAsFields`) and its signature is a signature
  on that other checkpoint (`Notes.BrokenOriginSignsOther`). The witness service signs bodies for
  origins its callers choose.
* **`authorizes_subset_of` may refuse a child that allows nothing.** It means what it says exactly when
  the child has a resource left or keeps the parent's action and ceiling (`Scopes.TestMeansWhatItSays`);
  `Scopes.EmptiedChildRefused` and `Scopes.EmptiedScopeRefused` are refusals of children that allow
  nothing at all.
* **A child covered by two parent permissions together is refused**, although it allows nothing beyond
  its parent (`Scopes.JointlyCoveredRefused`). For a parent with one permission per action, and a
  child with no emptied permission, the test decides exactly that (`Scopes.PermissionsMeanExact`).
* **A verifier with a bar of zero witnesses nothing**: an empty bundle then passes on the chain and
  the receipt's binding alone (`Verifier.ZeroBarWitnessesNothing`). The k-of-n guarantees need a
  positive bar.
* **The second comparison of the requested digest in `verify`** repeats the one above it and can
  never fail; the model has it once.

## Model

| member | source | states |
|---|---|---|
| MerkleTree.SplitUnique | core/witness/src/lib.rs:156-165 | the split is the one power of two k with k < n <= 2k |
| MerkleTree.MthLevel | core/witness/src/lib.rs:227-249 | pairing neighbours bottom-up and promoting an odd last node keeps the top-down tree hash |
| MerkleTree.SmallTrees | core/witness/src/lib.rs:227-249 | the empty tree, a single leaf and the unbalanced tree of three |
| MerkleTree.MthInjective | core/witness/src/lib.rs:227-249 | at one size two leaf lists have the same root exactly when they are equal |
| MerkleTree.RootDeterminesLog | core/witness/src/lib.rs:227-249 | two logs of any sizes have one root exactly when they are the same log |
| Digests.LeafHashesPrefix | core/witness/src/lib.rs:37-52 | the leaf hashes of one log are a prefix of another's exactly when its receipts are |
| WitnessLog.SplitPoint | core/witness/src/lib.rs:156-165 | the shifting loop on machine words finds the split of section 2.1 of RFC 6962 |
| WitnessLog.Witness.Append | core/witness/src/lib.rs:185-192 | one leaf is added at the returned index and every memoized root stays the root of its range |
| WitnessLog.Witness.Subtree | core/witness/src/lib.rs:227-249 | through the memo table, the root of a leaf range is the tree hash of that range |
| WitnessLog.Witness.Root | core/witness/src/lib.rs:172-175 | the cached root is the tree hash of all leaves |
| WitnessLog.CacheEntryGrows | core/witness/src/lib.rs:137-149 | a memoized root stays right when the log grows |
| WitnessLog.Witness.SubtreePath | core/witness/src/lib.rs:251-272 | the path computed on ranges and cached roots is the audit path of section 2.1.1 of RFC 6962 |
| WitnessLog.Witness.ProveInclusion | core/witness/src/lib.rs:194-205 | the genuine audit path of an existing leaf, nothing for any other index |
| WitnessLog.Witness.PushSubproof | core/witness/src/lib.rs:274-291 | SUBPROOF of section 2.1.2 of RFC 6962 is appended to the nodes collected so far |
| WitnessLog.Witness.ProveConsistency | core/witness/src/lib.rs:207-220 | the nodes of section 2.1.2 of RFC 6962 for every old size up to the current one, nothing otherwise |
| WitnessLog.Witness.SignedHead | core/witness/src/lib.rs:423-435 | the signed head carries the current size and root |
| WitnessLog.VerifyConsistency | core/witness/src/lib.rs:293-372 | the bit-walk's three loops compute the verdict that the theorems below are about, for any sizes, roots and nodes |
| WitnessLog.VerifyInclusion | core/witness/src/lib.rs:383-396 | the fold, refusing an index outside the claimed size and a path over 64 steps |
| Consistency.SubproofIsSiblings | core/witness/src/lib.rs:274-291 | for an odd old size the generator, splitting from the top, emits the walk's seed and then the siblings from the bottom up |
| Consistency.SubproofLevel | core/witness/src/lib.rs:274-291 | for an even old size the generated nodes are those of the level above at half the size |
| Consistency.ClimbExact | core/witness/src/lib.rs:340-372 | the walk reaches the tree's root exactly when it stands at the right node and is fed that node's siblings |
| Consistency.ClimbOldRoot | core/witness/src/lib.rs:340-372 | fed those siblings, the walk computes the root of the tree cut after the node |
| Consistency.ConsistencyExact | core/witness/src/lib.rs:293-372 | against a real log's root, and every non-empty old size, one old root and one proof are accepted: the prefix's root and the generated nodes |
| Consistency.ConsistencyComplete | core/witness/src/lib.rs:210-220 | for every prefix, the empty one included, the generated proof is accepted |
| Consistency.ConsistencySound | core/witness/src/lib.rs:293-372 | any proof accepted between the roots of two logs shows the older is a prefix of the newer |
| Consistency.EdgesExact | core/witness/src/lib.rs:306-316 | a larger old size is refused; equal sizes need equal roots, an empty old log anything at all, and both the empty proof |
| Consistency.ProofOfThreeInSeven | core/witness/src/lib.rs:210-220 | the example of section 2.1.3 of RFC 6962, node by node |
| Inclusion.AuditPathFolds | core/witness/src/lib.rs:251-272 | an audit path folds its leaf to the root |
| Inclusion.AuditPathShort | core/witness/src/lib.rs:374-377 | an audit path is no longer than the base-two logarithm of the size, rounded up |
| Inclusion.InclusionExact | core/witness/src/lib.rs:383-396 | a proof is accepted exactly when it carries the genuine path of some leaf holding the receipt and its index is below its size |
| Inclusion.RefusedPaths | core/witness/src/lib.rs:374-396 | an index outside the claimed size or more than 64 steps are refused under every root; the empty path proves the leaf hash itself |
| Inclusion.OmissionDetected | core/witness/src/lib.rs:379-396 | a receipt the log does not hold has no accepted proof |
| Inclusion.LeafIndexUnbound | core/witness/src/lib.rs:383-396 | the claimed index is not tied to the path |
| Inclusion.LeafIndexExact | core/witness/src/lib.rs:383-396 | an accepted index is the receipt's own position exactly when the path turns as that index and the log size dictate |
| Inclusion.WrongIndexAccepted | core/witness/src/lib.rs:383-396 | a two-leaf log whose second leaf is accepted under the first index |
| Gossip.ReconcileExact | core/witness/src/lib.rs:464-501 | for heads of two real logs, in either order: an invalid head exactly when one of the two signatures does not hold, else agreement exactly for a prefix with its genuine proof, else a forked root or an inconsistency by size |
| Gossip.SignaturesDecide | core/witness/src/lib.rs:464-475 | whatever the heads, a head is refused as invalid exactly when one of the two signature checks does not answer true |
| KeyOrder.ByteOrderIsBitOrder | core/revmap/src/lib.rs:70-73 | sorting keys by bytes sorts them by bits, most significant first |
| RevocationMaps.NewDefaults | core/revmap/src/lib.rs:80-89 | every entry of the table is the root of the empty subtree of its height |
| RevocationMaps.SpanSplit | core/revmap/src/lib.rs:181-196 | in a sorted span sharing its first bits the partition point cuts off exactly the keys of the left child |
| RevocationMaps.SubtreeRootIsDense | core/revmap/src/lib.rs:174-196 | the root over the sorted list is the root of the full tree over the set of keys |
| MapTree.DenseInjective | core/revmap/src/lib.rs:174-196 | two sets of keys have one root exactly when they are equal |
| MapTree.SiblingNeverElided | core/revmap/src/lib.rs:207-233 | no sibling ever equals the default it is compared with, so none is elided |
| MapTree.TreeOfTwo | core/revmap/src/lib.rs:48-76 | a revoked key is hashed as a leaf, any other slot is the constant empty leaf, and a 0 bit leads to the left |
| RevocationMaps.RevocationMap.Revoke | core/revmap/src/lib.rs:163-169 | the key joins the set, and the list stays sorted without repetitions |
| RevocationMaps.RevocationMap.Contains | core/revmap/src/lib.rs:171-173 | lookup is membership in the revoked set |
| RevocationMaps.RevocationMap.Root | core/revmap/src/lib.rs:174-178 | the root depends only on the set of keys |
| RevocationMaps.RevocationMap.CollectSiblings | core/revmap/src/lib.rs:207-233 | the walk pushes the genuine siblings from its depth down and marks their depths in the bitmap |
| RevocationMaps.RevocationMap.Prove | core/revmap/src/lib.rs:200-206 | after any revocations in any order the proof of any key is accepted as inclusion exactly when the key is revoked and as non-inclusion exactly when it is not; it carries all the siblings |
| RevocationMaps.Expand | core/revmap/src/lib.rs:116-139 | expansion puts each carried hash at its depth and defaults elsewhere, and refuses a bitmap of the wrong length or a wrong number of hashes |
| RevocationMaps.RecomputeRoot | core/revmap/src/lib.rs:236-252 | the fold from a claimed leaf over the expanded siblings |
| RevocationMaps.MapProofExact | core/revmap/src/lib.rs:254-264 | against a real map's root a proof shows revocation, or absence, exactly when that is the truth and it expands to the genuine siblings |
| RevocationMaps.ExpandedExact | core/revmap/src/lib.rs:116-139 | a proof is refused exactly when the bitmap has the wrong length or marks another number of depths than there are hashes |
| RevocationMaps.ExpandedEntry | core/revmap/src/lib.rs:116-139 | a marked depth gets the hash of its rank, an unmarked one the default of its sibling's height |
| RevocationMaps.CompactedProofExact | core/revmap/src/lib.rs:104-139 | leaving out any of the siblings that are genuinely default changes nothing: the proof expands to the same siblings and decides membership |
| RevocationMaps.NoCrossOver | core/revmap/src/lib.rs:254-264 | under any root whatever no key has both an accepted inclusion and an accepted non-inclusion proof |
| LogBackedMap.CheckpointReceiptInjective | core/revlog/src/lib.rs:70-97 | a log leaf commits one checkpoint only |
| LogBackedMap.HistoryGrows | core/revlog/src/lib.rs:138-151 | publishing keeps epochs counting from zero, sets growing and every checkpoint naming the log root before it |
| LogBackedMap.LogBackedRevocation.Revoke | core/revlog/src/lib.rs:129-134 | the map changes, the log does not |
| LogBackedMap.LogBackedRevocation.PublishCheckpoint | core/revlog/src/lib.rs:136-151 | the current set is frozen as the next epoch and the returned head is that of the grown log |
| LogBackedMap.LogBackedRevocation.Prove | core/revlog/src/lib.rs:163-181 | a proof is withheld exactly when nothing is published or the set has changed since; a served one verifies with the right verdict and not with the other |
| LogBackedMap.LoggedStatusSound | core/revlog/src/lib.rs:195-216 | under a key that signs only heads of one history, any accepted proof names a published checkpoint and tells the truth about the set frozen there |
| LogBackedMap.MapRootLoggedExact | core/revlog/src/lib.rs:195-205 | against a head of a real log, a map root is logged exactly when the head's signature check answers true and the path is that of a leaf holding the checkpoint's receipt |
| LogBackedMap.CheckpointLeaves | core/revlog/src/lib.rs:70-97 | every leaf of a history names the root of the log before it and commits epoch, map root and that log root under the two domains |
| Signatures.EncodeComponent | core/crypto/src/hybrid.rs:165-178 | one frame is appended and what was in the buffer stays |
| Signatures.FrameTwo | core/crypto/src/hybrid.rs:153-163 | the frames of both components, in order, or the first error |
| Signatures.DecodeOfFrames | core/crypto/src/hybrid.rs:153-207 | framing succeeds exactly for two non-hybrid payloads under 2^32 bytes, and decoding gives both back |
| Signatures.FramesOfDecode | core/crypto/src/hybrid.rs:180-207 | every accepted byte string is the frame of what it decodes to |
| Signatures.VerifyHybrid | core/crypto/src/hybrid.rs:90-131 | the loop's verdict: errors in order, otherwise the conjunction |
| Signatures.HybridExact | core/crypto/src/hybrid.rs:90-131 | a hybrid signature is valid exactly when both decode, tags agree and both components verify on their own |
| Signatures.DispatchExact | core/crypto/src/lib.rs:148-164 | differing tags are an error whatever the bytes, and each plain scheme decides on exactly message, signature bytes and key bytes |
| Signatures.HybridErrors | core/crypto/src/hybrid.rs:90-131 | the first error in the order signature, key, first component, second component; without one the conjunction |
| Signatures.FrameLayout | core/crypto/src/hybrid.rs:165-178 | tag 0 or 1, four length bytes with the most significant first, payload, twice |
| Signatures.HybridComponents | core/crypto/src/hybrid.rs:46-88 | hybrid keys and signatures carry the two components' own, the classical one first |
| Signatures.HybridSignerGenuine | core/crypto/src/hybrid.rs:46-88 | two genuine signers make a genuine hybrid signer |
| Notes.VerifyCheckpoint | clients/checkpoint/src/lib.rs:125-177 | the scan finds a valid signature line by the given name and key and returns the committed fields of the body |
| Notes.AcceptedNoteExact | clients/checkpoint/src/lib.rs:125-177 | a note is accepted for a name and key exactly when the name has no space, a line from the first marked one on is a signature over the lines above, and those are a checkpoint body |
| Notes.SigLineExact | clients/checkpoint/src/lib.rs:138-170 | a line counts exactly when it is marker, name, space and the base64 of the key hash and a valid 64-byte signature |
| Notes.BodyOfNote | clients/checkpoint/src/lib.rs:127-136 | a note has a body exactly when its first marked line has three lines above it, and the body is those lines |
| Notes.CarriageReturnsDropped | clients/checkpoint/src/lib.rs:170-174 | a body with carriage returns before its line breaks reads as the same checkpoint |
| Notes.NoteCommitsOneCheckpoint | clients/checkpoint/src/lib.rs:125-177 | whoever's signature is checked, a note yields one checkpoint |
| Notes.NoteRoundTrip | clients/checkpoint/src/lib.rs:81-97 | a signed checkpoint reads back as signed exactly when origin and key name are clean |
| Notes.BodyRoundTrip | clients/checkpoint/src/lib.rs:57-67 | a body reads back as the checkpoint it was written for exactly when the origin is one line |
| Notes.BrokenOriginReadsAsFields | clients/checkpoint/src/lib.rs:57-67 | an origin with line breaks makes a body that reads back as another checkpoint |
| Notes.BrokenOriginSignsOther | services/witness/src/lib.rs:514-535 | the signature made over such a body, in a note under any clean name, verifies for the other checkpoint |
| Notes.CosignExact | clients/checkpoint/src/lib.rs:98-121 | for every note and name: success exactly for notes with a body, which is kept; the cosignature verifies exactly for a terminated note and a clean name, or where it already did; every other name and key is signed for exactly above the last line or on the lines the appended text makes |
| Notes.UnterminatedCosignLosesAll | clients/checkpoint/src/lib.rs:98-121 | a signed note without its final line break verifies, and once cosigned verifies under no name and key |
| Cosigning.CosigningWitness.AddCheckpoint | clients/checkpoint/src/lib.rs:235-271 | the refusals in order, each leaving the view as it was; otherwise the view advances to a checkpoint that extends it and its body is signed |
| Cosigning.RunMonotone | clients/checkpoint/src/lib.rs:235-271 | over a run cosigned sizes never decrease |
| Cosigning.RunIsChain | clients/checkpoint/src/lib.rs:235-271 | every earlier cosigned root of a non-empty size is the root of the later log's own prefix |
| Cosigning.RunOneRootPerSize | clients/checkpoint/src/lib.rs:235-271 | no run signs two roots at one non-empty size |
| Cosigning.AnyRootsAtSizeZero | clients/checkpoint/src/lib.rs:250-262 | any two roots may be cosigned one after the other at size 0 |
| Cosigning.ExtendsExact | clients/checkpoint/src/lib.rs:244-262 | an honest next checkpoint is taken exactly when the root seen is that of its own prefix and the genuine proof comes with it; from size 0, exactly with the empty proof |
| Cosigning.SignersExact | clients/checkpoint/src/lib.rs:279-301 | a list entry is counted exactly when the note is accepted under its name and key |
| Cosigning.VerifyQuorum | clients/checkpoint/src/lib.rs:279-301 | the note's checkpoint exactly when at least one and at least the threshold of the entries signed it |
| Cosigning.QuorumsOneRootPerSize | clients/checkpoint/src/lib.rs:273-301 | with 2t > w + f and at most f deviating entries, two notes passing the quorum at one non-empty size carry one root, whatever the log signed |
| Cosigning.QuorumsPrefixRoot | clients/checkpoint/src/lib.rs:273-301 | where the larger checkpoint is a real log, the smaller one carries the root of that log's own prefix, whatever the log signed for it |
| Cosigning.QuorumNonEquivocation | clients/checkpoint/src/lib.rs:273-301 | where both are real logs, one is a prefix of the other |
| DurableLog.OpenStore | services/witness/src/lib.rs:96-152 | the scan restores the receipts of the leading whole frames, cuts the file behind them and refuses interior damage |
| DurableLog.FrameLayout | services/witness/src/lib.rs:154-166 | four length bytes, the least significant first, then the canonical bytes |
| DurableLog.ReplayConcat | services/witness/src/lib.rs:108-133 | whole frames at the front never change what is read behind them |
| DurableLog.ReopenStable | services/witness/src/lib.rs:108-143 | what opening leaves of any file opens again to the same receipts, with nothing more to cut |
| DurableLog.InteriorDamageExact | services/witness/src/lib.rs:117-130 | opening fails exactly when whole frames are followed by one that does not parse and more data |
| DurableLog.CrashRecovers | services/witness/src/lib.rs:154-166 | an append cut at any byte loses nothing before it; its receipt is restored or absent, and the file is whole frames |
| DurableLog.TruncationRecovers | services/witness/src/lib.rs:138-143 | a crash while the torn tail is being cut off, at any length, changes nothing that the next opening restores |
| WitnessService.DurableWitness.Submit | services/witness/src/lib.rs:390-428 | a stale root or an oversized frame changes nothing; otherwise the receipt is on disk, in the tree and acknowledged with a proof under the signed head |
| WitnessService.SubmissionExact | services/witness/src/lib.rs:390-428 | a receipt is taken exactly when it names the current root and its bytes fit a frame, at the next index; the root is checked first |
| WitnessService.DurableWitness.Recover | services/witness/src/lib.rs:72-82 | a new process always comes up on what the old one left, in the state the run model predicts |
| WitnessService.RunIsDurable | services/witness/src/lib.rs:85-167 | over every run the file is the frames of the log, acknowledged receipts keep their indices in order, at most one more receipt per submission cut short is in the log, and each names the root before it |
| WitnessService.EntryOrigin | services/witness/src/lib.rs:390-428 | every receipt of the log was put at its index by one event: an acknowledged submission, or one in flight at a crash with its whole frame written, never acknowledged |
| WitnessService.NoDuplicates | services/witness/src/lib.rs:396-400 | no receipt is in the log twice |
| WitnessService.ServedIndexExact | core/witness/src/lib.rs:383-396 | against a log of the service an accepted index is the receipt's position exactly when the path turns as index and size dictate |
| Scopes.SummariesExact | core/chain/src/lib.rs:77-101 | ceiling and resource set say together what the constraints say one by one |
| Scopes.AuthorizesSubsetExact | core/chain/src/lib.rs:103-122 | the test is sound, and exact whenever the child's resource lists leave it a resource |
| Scopes.TestMeansWhatItSays | core/chain/src/lib.rs:103-122 | the test agrees with the meaning of the two permissions exactly when the child has a resource left, or names the parent's action under no higher ceiling |
| Scopes.EmptiedChildRefused | core/chain/src/lib.rs:103-122 | a concrete child that allows nothing and is refused |
| Scopes.EmptiedScopeRefused | core/chain/src/lib.rs:205-237 | a scope that allows no use of anything, refused as widened under equal limits |
| Scopes.EmptyResourcesPermitNothing | core/chain/src/lib.rs:103-122 | a child without any resource left allows nothing, and what the test answers for it |
| Scopes.NarrowsTransitive | core/chain/src/lib.rs:205-237 | narrowing composes |
| Scopes.NarrowsExact | core/chain/src/lib.rs:205-237 | narrowing is exactly that one of the parent's permissions covers each of the child's and that budget, currency and expiry allow nothing beyond the parent's; an expiry error means only the expiry is wrong |
| Scopes.PermissionsMeanExact | core/chain/src/lib.rs:209-221 | with one parent permission per action and no emptied child permission, permissions narrow exactly when the child scope allows nothing beyond the parent scope |
| Scopes.JointlyCoveredRefused | core/chain/src/lib.rs:209-221 | a child covered only by two parent permissions together allows nothing more and is refused as widened |
| Scopes.NarrowsMeaning | core/chain/src/lib.rs:205-237 | a narrowed scope allows no use, spending or time its parent does not |
| Chains.CheckBlock | core/chain/src/lib.rs:500-541 | one turn of the loop, given what is carried from the block before, decides the verdict up to that block and carries on scope, key, principal and hash of its own |
| Chains.VerifyChain | core/chain/src/lib.rs:478-545 | the loop returns the first violated property in block order, or the tail's scope |
| Chains.VerifyExact | core/chain/src/lib.rs:478-545 | success means every block is linked by key, principal and hash, states a purpose, loses depth, narrows and is signed |
| Chains.VerifyOnFields | core/chain/src/lib.rs:478-545 | success, and the scope returned, field by field: the first block is from the root's principal and key, every later one from the principal and key the block before it names, with its hash, a purpose, less depth, a narrower scope and a valid signature |
| Chains.PrincipalsLink | core/chain/src/lib.rs:500-541 | in an accepted chain each block's principal, key, hash and depth follow from the fields of the block before it |
| Chains.ExecutorOnFields | core/chain/src/lib.rs:554-562 | the executor is the key the last block names, or the root's |
| Chains.PayloadsCoverAll | core/chain/src/lib.rs:333-354 | the signed payload of a block or root covers every field but its signature |
| Chains.RefusalNamesFirstFault | core/chain/src/lib.rs:478-545 | a refusal names what is wrong with the first block that is not good |
| Chains.LinkFaults | core/chain/src/lib.rs:500-537 | each refusal of a block, by the fault of its fields and in the order of the checks |
| Chains.RootFaults | core/chain/src/lib.rs:484-498 | a root under another key, with a failing check, or with an invalid signature refuses the chain with that error |
| Chains.RefusalOnFields | core/chain/src/lib.rs:500-541 | after an accepted front the next block's fault, against the fields of the block before it, is the error of the whole chain |
| Chains.BlankPurposes | core/chain/src/lib.rs:510-513 | the empty text, a space, a tab, a line break of either kind and the ideographic space are no purpose; text with a letter or digit is one |
| Chains.ScopesNarrow | core/chain/src/lib.rs:516-523 | in a verified chain every later scope narrows every earlier one and depth falls by at least one per hop |
| Chains.VerifiedWithinRoot | core/chain/src/lib.rs:470-545 | whatever the final scope allows the root allows, and hops plus remaining depth stay within the root's depth |
| Chains.LastBlockBindsChain | core/chain/src/lib.rs:356-368 | two verified chains with the same last block are the same chain under the same root key |
| Chains.FromRootExact | core/chain/src/lib.rs:388-398 | a root is adopted exactly when the chain it starts verifies under the key it names |
| Chains.Chain.Issue | core/chain/src/lib.rs:371-386 | a fresh chain carries the signed root and no hops |
| Chains.Chain.Attenuate | core/chain/src/lib.rs:414-468 | one block is appended, or the first violated rule is reported and nothing changes |
| Chains.IssuedOnFields | core/chain/src/lib.rs:371-386 | the issued root names principal, key and scope as given and signs all three |
| Chains.AttenuatedOnFields | core/chain/src/lib.rs:414-468 | the appended block and the order of the refusals, on the fields of the last block |
| Chains.TwoHops | core/chain/src/lib.rs:414-468 | of two attenuations the second block is from the principal and key the first went to, over its hash |
| Chains.AttenuateVerifies | core/chain/src/lib.rs:414-468 | attenuating a good chain with a genuine signer gives a good chain with the new scope and executor |
| Chains.AttenuateComplete | core/chain/src/lib.rs:414-468 | every verifying chain is the attenuation of the chain one block shorter: nothing that verifies is refused |
| Chains.BuiltChainsVerify | core/chain/src/lib.rs:371-468 | whatever calls are attempted on an issued chain, it verifies under the issuer's key to its tail's scope |
| Attestations.AttestVouches | core/attestation/src/lib.rs:104-195 | an attestation by a genuine signer verifies against every executor key but the signer's own |
| Attestations.CountIsParties | core/attestation/src/lib.rs:262-284 | with distinct keys the members counted are that many parties, none of them the executor |
| Attestations.BundleExact | core/attestation/src/lib.rs:249-284 | a bundle holds exactly when its members agree pairwise on chain, request, outcome and witnessed root, no two share a key, and enough parties other than the executor validly signed; otherwise the first fault in that order is named |
| Attestations.CompletionFaults | core/attestation/src/lib.rs:180-195 | the executor's own key is refused before any signature, then an error and a refusal of the check over every signed field |
| Attestations.AttestedFields | core/attestation/src/lib.rs:104-150 | an attestation states what it was given, under the signer's key |
| Attestations.VerifyThresholdBundle | core/attestation/src/lib.rs:249-284 | one binding, then distinct keys, then enough vouching members; the first violated rule is reported |
| Verifier.VerifyEndToEnd | core/verifier/src/lib.rs:180-245 | against a real log's root, acceptance is exactly: good chain, logged receipt of this chain, genuine path, one binding, valid signature by an anchored key other than the executor's |
| Verifier.RefusalsNamed | core/verifier/src/lib.rs:197-223 | with a good, bound chain and the trusted root: unlogged is an omission, self-attested is not independent, attested by a stranger is not anchored |
| Verifier.VerifyFaults | core/verifier/src/lib.rs:180-245 | each refusal of an action by its fault, in the order of the checks |
| Verifier.AnchoredExact | core/verifier/src/lib.rs:73-96 | a third party needs the policy's list, a counter-signer the policy's leave and any key the chain names |
| Verifier.AttesterTrustedOrDelegator | core/verifier/src/lib.rs:73-96 | the attester of an accepted action is trusted by the policy or held the authority before the executor |
| Verifier.DefaultPolicyRefusesAll | core/verifier/src/lib.rs:34-71 | the default policy accepts no action |
| Verifier.ThresholdIsManySingles | core/verifier/src/lib.rs:255-333 | the k-of-n verifier accepts exactly when the bar is met, all members fit, keys differ and enough parties would each pass the single verifier |
| Verifier.ThresholdParties | core/verifier/src/lib.rs:255-333 | acceptance yields at least the required number of distinct anchored keys, not the executor's, that validly signed one binding to the witnessed action |
| Verifier.OneOfOneIsSingle | core/verifier/src/lib.rs:247-333 | a bundle of one at a bar of one is accepted exactly when the single attestation is, with the same scope |
| Verifier.ZeroBarWitnessesNothing | core/verifier/src/lib.rs:255-333 | an empty bundle passes exactly at a bar of zero, on chain and binding alone |
| Verifier.ThresholdNotOmitted | core/verifier/src/lib.rs:295-302 | at any positive bar the receipt of an accepted bundle is in the log |
| Verifier.ThresholdEarlyFaults | core/verifier/src/lib.rs:255-302 | the refusals of a bundle before its signatures are looked at, in order |
| Verifier.ThresholdLateFaults | core/verifier/src/lib.rs:303-333 | the refusals after that: the bundle's own, an unanchored attester, then the digests |
| Verifier.FirstDigestFault | core/verifier/src/lib.rs:318-331 | the first member whose digests are off decides which of the two errors is named |
| Verifier.GateMeansNotRevoked | core/verifier/src/lib.rs:354-374 | passing the gate means that the id of every block's signature is absent from the set of a published checkpoint and of all earlier ones |
| Verifier.RevokedFromTheStartRefused | core/verifier/src/lib.rs:376-401 | a chain with a block revoked before the first checkpoint never passes either gated verifier |
| Verifier.GateExact | core/verifier/src/lib.rs:354-374 | the gate passes exactly when the id of every block's signature is 32 bytes long and has a proof of absence; a missing one refuses |
| Verifier.GatedExact | core/verifier/src/lib.rs:376-401 | the gate answers first, then the plain verifier's verdict is given |
| Verifier.LiveChainPasses | core/verifier/src/lib.rs:354-374 | a chain of unrevoked blocks with served proofs passes the gate |
| Verifier.KeyBitsExact | core/verifier/src/lib.rs:361-370 | two ids of one length are looked up under one map key exactly when they are equal |
| Verifier.PurposeExact | core/verifier/src/lib.rs:413-447 | the receipt must be for the last hop's purpose and the given parameters; a chain without hops is refused |
| Verifier.OtherPurposeRefused | core/verifier/src/lib.rs:419-433 | an action witnessed for another purpose than the last hop's, or other parameters, is refused whatever the earlier hops say |
| Verifier.ReceiptBindsEverything | core/verifier/src/lib.rs:413-447 | one receipt is accepted for one chain, root key, purpose, parameters and scope |
| RevocationChecks.AskAll | core/revocation/src/lib.rs:350-368 | live exactly when all say live, denied exactly when some checker denies, whatever the others could not answer |
| RevocationChecks.CheckChain | core/revocation/src/lib.rs:541-557 | success exactly when the id of the root's signature and of every block's own signature is confirmed live; otherwise the verdict on the first block that is not |
| RevocationChecks.IdsOfBlocks | core/revocation/src/lib.rs:78-87 | block by block the ids are those of the blocks' own signatures, root first |
| RevocationChecks.HopVerdicts | core/revocation/src/lib.rs:541-557 | live passes, revoked and stale are refused under their names, and an unanswered check is an error |
| Snapshots.SetBytesInjective | core/revocation/src/lib.rs:393-397 | the ids behind their lengths, concatenated, determine the list of ids |
| Snapshots.ListingUnique | core/revocation/src/lib.rs:385-397 | a set has one listing in order, whatever order its ids came in |
| Snapshots.SnapshotBytesExact | core/revocation/src/lib.rs:385-404 | two snapshots are signed over the same bytes exactly when they are equal |
| Snapshots.LayoutOfBytes | core/revocation/src/lib.rs:388-404 | numbers are eight bytes, the most significant first, and each id follows its length |
| Snapshots.FrontLayout | core/revocation/src/lib.rs:398-404 | the epoch comes first, the publish time second, then the digest of the ids |
| Snapshots.IdLessExact | core/revocation/src/lib.rs:385-397 | ids are listed in the order of dictionaries |
| Snapshots.RevocationLog.Revoke | services/revocation-log/src/lib.rs:223-238 | the epoch counts the revoked ids and rises only with the set |
| Snapshots.RevocationLog.CurrentSnapshot | services/revocation-log/src/lib.rs:107-112 | the current set is signed with its epoch and the time |
| Snapshots.SnapshotChecker.IsRevoked | core/revocation/src/lib.rs:491-526 | an answer is given exactly when the fetch succeeded, the signature check answers true, the epoch is not below the last one seen and the snapshot is at most the allowed staleness old; only then is its epoch remembered |
| Snapshots.NoUnrevocation | core/revocation/src/lib.rs:491-526 | over any run of lookups on delayed, repeated or reordered snapshots, an id once answered revoked is never later answered live, and both answers are at most the allowed staleness old |
| Snapshots.AnswerIsFreshTruth | core/revocation/src/lib.rs:491-526 | every answer of a run is the truth of a published state at most the allowed staleness old, and of no earlier epoch than any answer before it |
| Snapshots.TrustedExact | core/revocation/src/lib.rs:491-526 | the run theorems take a lookup as answered exactly under those conditions |
| Snapshots.ServedSnapshotTrusted | services/revocation-log/src/lib.rs:107-112 | a freshly served snapshot satisfies every client that has seen nothing newer, with the truth about each id |

## Left out

- WitnessLog.SplitPoint: holds for sizes up to 2^63, because the source shifts a machine word; beyond that the shift wraps and the loop does not end.
- WitnessLog.Witness.Append: requires fewer than 2^58 leaves, the most 32-byte digests one allocation can hold.
- WitnessLog.Witness.SignedHead: requires the signer to succeed, because the source panics otherwise; the same holds of publishing, issuing, attesting and cosigning.
- Inclusion.InclusionExact: speaks of logs of at most 2^64 leaves, where the path bound of 64 suffices.
- Notes.NoteRoundTrip: speaks of signers with 64-byte Ed25519 signatures, the only kind that signs notes; so does Notes.CosignExact.
- Bytes: signature bytes, ids and frames are integers below 256, map keys and bitmaps are 8-bit vectors, because the former are computed with arithmetic and the latter with shifts and masks.
- Cosigning.RunIsChain: says nothing about size 0, where the source accepts any root.
- Cosigning.QuorumNonEquivocation: counts list entries, as the source does; an operator listed twice counts twice on both sides of the bound.
- LogBackedMap.LoggedStatusSound: claims the truth at the epoch of the checkpoint only; the source does not require the latest one.
- Snapshots.SnapshotChecker.IsRevoked: one lookup is one step; the source loads and stores its epoch separately, so concurrent lookups are not covered.
- WitnessService.DurableWitness.Submit: an append completes or the process dies; one that fails midway while the process keeps running is not modelled.
- WitnessService.RunIsDurable: the truncation at start is one step of a run; that a crash in the middle of it does no harm is DurableLog.TruncationRecovers.
- DurableLog.CrashRecovers: a crash leaves a prefix of the frame; storage that persists other bytes is outside the model.
- RevocationMaps.SubtreeRootIsDense: the partition point is the first key with a 1 at the depth; the binary search that finds it belongs to the standard library.
- Machine words: sizes, epochs, depths and times are unbounded naturals, except amounts and budgets, the 32-bit lengths of frames, the size text of a note and the shift above.
- Cryptography: BLAKE3, SHA-256, Ed25519, ML-DSA, key generation and zeroization are not part of this model.
- Encodings: JCS, JSON, base64 and hexadecimal are injective codecs; malformed wire values other than notes, frames and log files are not modelled.
- Error texts: a crypto error inside a chain or an attestation keeps its kind and loses its message.
- Services: routing, transfer objects, HTTP clients, mutexes and the other witness and revocation handlers are thin wrappers around what is modelled.
- ShortTtlChecker and TransparencyLogChecker: single map lookups; they appear as arbitrary members of the composite.
- Restarts of the revocation-log service: its state is in memory only.
- Adapters for AP2 and MCP, the command line, the WebAssembly wrapper, the Python and TypeScript packages, demos, benchmarks and fuzz targets.
