/** The cosigning witness as a state machine, and the quorum check over its cosignatures. */
module Cosigning {
  import opened Wrappers
  import opened Digests
  import opened MerkleTree
  import opened Consistency
  import opened Signatures
  import opened WitnessLog
  import opened Notes

  datatype CosignError =
    | BadLogSignature
    | SizeMismatch(ourSize: nat)
    | Rollback(ourSize: nat, newSize: nat)
    | InconsistentProof

  /** One cosigned checkpoint: the body that was signed, what it commits to and the proof that
      came with it. */
  datatype Cosigned = Cosigned(body: string, checkpoint: Checkpoint, proof: seq<Digest>)

  /** Whether a checkpoint may follow a view of this size and root. */
  predicate Extends(size: nat, root: Digest, next: Checkpoint, proof: seq<Digest>) {
    && size <= next.size
    && if size == 0 then proof == [] else Accepts(root, next.root, proof, size, next.size)
  }

  function SizeSeen(history: seq<Cosigned>): nat {
    if history == [] then 0 else history[|history| - 1].checkpoint.size
  }

  function RootSeen(history: seq<Cosigned>): Digest {
    if history == [] then Raw(0) else history[|history| - 1].checkpoint.root
  }

  /** A run of a witness that follows the rules: every step extends the one before it and is
      signed over the body that commits to it. */
  ghost predicate Run(codec: NoteCodec, history: seq<Cosigned>) {
    forall i :: 0 <= i < |history| ==> RunStep(codec, history, i)
  }

  ghost predicate RunStep(codec: NoteCodec, history: seq<Cosigned>, i: nat)
    requires i < |history|
  {
    && ParseBody(codec, history[i].body) == Some(history[i].checkpoint)
    && Extends(SizeSeen(history[..i]), RootSeen(history[..i]), history[i].checkpoint, history[i].proof)
  }

  lemma RunGrows(codec: NoteCodec, history: seq<Cosigned>, next: Cosigned)
    requires Run(codec, history) && ParseBody(codec, next.body) == Some(next.checkpoint)
    requires Extends(SizeSeen(history), RootSeen(history), next.checkpoint, next.proof)
    ensures Run(codec, history + [next])
  {
    var grown := history + [next];
    forall i | 0 <= i < |grown| ensures RunStep(codec, grown, i) {
      assert grown[..i] == if i < |history| then history[..i] else history;
      if i < |history| { assert RunStep(codec, history, i); }
    }
  }

  class CosigningWitness {
    const codec: NoteCodec
    const schemes: Schemes<string>
    const signer: Signer<string>
    const keyName: string
    const logOrigin: string
    const logKey: PublicKey
    var seen: Option<(nat, Digest)>
    ghost var history: seq<Cosigned>

    ghost predicate Valid()
      reads this
    {
      && Run(codec, history)
      && seen == if history == [] then None else Some((SizeSeen(history), RootSeen(history)))
    }

    constructor (codec: NoteCodec, schemes: Schemes<string>, signer: Signer<string>, keyName: string,
                 logOrigin: string, logKey: PublicKey)
      ensures Valid() && seen == None && history == []
      ensures this.codec == codec && this.schemes == schemes && this.signer == signer
      ensures this.keyName == keyName && this.logOrigin == logOrigin && this.logKey == logKey
    {
      this.codec, this.schemes, this.signer := codec, schemes, signer;
      this.keyName, this.logOrigin, this.logKey := keyName, logOrigin, logKey;
      seen, history := None, [];
    }

    /** Cosigns a log-signed note that extends what was cosigned last. The verdicts come in
        the order the checks are made, and a refusal leaves the witness as it was. */
    method AddCheckpoint(note: string, oldSize: nat, consistency: seq<Digest>) returns (r: Result<string, CosignError>)
      requires Valid() && forall body :: signer.sign(body).Ok?
      modifies this
      ensures Valid()
      ensures r.Err? ==> seen == old(seen) && history == old(history)
      ensures var cp, size := NoteCheckpoint(codec, schemes, note, logOrigin, logKey), SizeSeen(old(history));
              if cp.None? then r == Err(BadLogSignature)
              else if oldSize != size then r == Err(SizeMismatch(size))
              else if cp.value.size < size then r == Err(Rollback(size, cp.value.size))
              else if !Extends(size, RootSeen(old(history)), cp.value, consistency) then r == Err(InconsistentProof)
              else
                && history == old(history) + [Cosigned(NoteBody(note).value, cp.value, consistency)]
                && SignatureLine(codec, NoteBody(note).value, signer, keyName) == Ok(r.value)
    {
      var cp := VerifyCheckpoint(codec, schemes, note, logOrigin, logKey);
      if cp.None? { return Err(BadLogSignature); }
      var (ourSize, ourRoot) := if seen.Some? then seen.value else (0, Raw(0));
      if oldSize != ourSize { return Err(SizeMismatch(ourSize)); }
      if cp.value.size < ourSize { return Err(Rollback(ourSize, cp.value.size)); }
      var consistent := consistency == [];
      if ourSize != 0 {
        consistent := VerifyConsistency(ourRoot, cp.value.root, consistency, ourSize, cp.value.size);
      }
      if !consistent { return Err(InconsistentProof); }
      seen := Some((cp.value.size, cp.value.root));
      var body := NoteBody(note);
      if body.None? { return Err(BadLogSignature); }
      RunGrows(codec, history, Cosigned(body.value, cp.value, consistency));
      history := history + [Cosigned(body.value, cp.value, consistency)];
      r := Ok(SignatureLine(codec, body.value, signer, keyName).value);
    }
  }

  /** Cosigned sizes never decrease. */
  lemma {:induction false} RunMonotone(codec: NoteCodec, history: seq<Cosigned>, i: nat, j: nat)
    requires Run(codec, history) && i <= j < |history|
    ensures history[i].checkpoint.size <= history[j].checkpoint.size
    decreases j
  {
    if i < j {
      RunMonotone(codec, history, i, j - 1);
      assert RunStep(codec, history, j);
      assert history[..j][j - 1] == history[j - 1];
    }
  }

  /** MAIN RESULT. Once a run cosigns the root of a real log, every earlier cosigned root of a
      non-empty size, whatever was presented for it, is the root of that log's own prefix. */
  lemma {:induction false} RunIsChain(codec: NoteCodec, history: seq<Cosigned>, i: nat, j: nat, leaves: seq<Digest>)
    requires Run(codec, history) && i <= j < |history| && 0 < history[i].checkpoint.size
    requires history[j].checkpoint.size == |leaves| && history[j].checkpoint.root == Mth(leaves)
    ensures history[i].checkpoint.size <= |leaves|
    ensures history[i].checkpoint.root == Mth(leaves[..history[i].checkpoint.size])
    decreases j
  {
    if i == j {
      assert leaves[..|leaves|] == leaves;
    } else {
      var before := history[j - 1].checkpoint;
      RunMonotone(codec, history, i, j - 1);
      StepIsPrefix(codec, history, j, leaves);
      RunIsChain(codec, history, i, j - 1, leaves[..before.size]);
      var size := history[i].checkpoint.size;
      assert leaves[..before.size][..size] == leaves[..size];
    }
  }

  /** One step onto a real log comes from the root of that log's own prefix. */
  lemma {:induction false} StepIsPrefix(codec: NoteCodec, history: seq<Cosigned>, j: nat, leaves: seq<Digest>)
    requires Run(codec, history) && 0 < j < |history| && 0 < history[j - 1].checkpoint.size
    requires history[j].checkpoint.size == |leaves| && history[j].checkpoint.root == Mth(leaves)
    ensures history[j - 1].checkpoint.size <= |leaves|
    ensures history[j - 1].checkpoint.root == Mth(leaves[..history[j - 1].checkpoint.size])
  {
    var before := history[j - 1].checkpoint;
    assert RunStep(codec, history, j);
    assert history[..j][j - 1] == history[j - 1];
    ConsistencyExact(before.root, history[j].proof, before.size, leaves);
  }

  /** No run signs two different roots at one non-empty size. */
  lemma {:induction false} RunOneRootPerSize(codec: NoteCodec, history: seq<Cosigned>, i: nat, j: nat)
    requires Run(codec, history) && i <= j < |history|
    requires history[i].checkpoint.size == history[j].checkpoint.size > 0
    ensures history[i].checkpoint.root == history[j].checkpoint.root
    decreases j
  {
    if i < j {
      RunMonotone(codec, history, i, j - 1);
      assert RunStep(codec, history, j);
      assert history[..j][j - 1] == history[j - 1];
      RunOneRootPerSize(codec, history, i, j - 1);
    }
  }

  /** The other half: a witness that has seen nothing, or only an empty log, follows its rules
      under any two roots at size 0. */
  lemma AnyRootsAtSizeZero(codec: NoteCodec, origin: string, first: Digest, second: Digest)
      returns (history: seq<Cosigned>)
    requires GoodCodec(codec) && OneLine(origin)
    ensures Run(codec, history) && |history| == 2
    ensures history[0].checkpoint == Checkpoint(origin, 0, first)
    ensures history[1].checkpoint == Checkpoint(origin, 0, second)
  {
    var a, b := Checkpoint(origin, 0, first), Checkpoint(origin, 0, second);
    BodyRoundTrip(codec, a);
    BodyRoundTrip(codec, b);
    history := [Cosigned(CheckpointBody(codec, a), a, [])];
    RunGrows(codec, [], history[0]);
    assert [] + history == history;
    RunGrows(codec, history, Cosigned(CheckpointBody(codec, b), b, []));
    history := history + [Cosigned(CheckpointBody(codec, b), b, [])];
  }

  /** Over one run, the smaller of two cosigned checkpoints, in whatever order they came, carries the
      root of the larger one's own prefix. */
  lemma {:induction false} RunPrefixRoot(codec: NoteCodec, history: seq<Cosigned>, i: nat, j: nat, leaves: seq<Digest>)
    requires Run(codec, history) && i < |history| && j < |history|
    requires 0 < history[i].checkpoint.size <= history[j].checkpoint.size == |leaves|
    requires history[j].checkpoint.root == Mth(leaves)
    ensures history[i].checkpoint.root == Mth(leaves[..history[i].checkpoint.size])
  {
    if i <= j {
      RunIsChain(codec, history, i, j, leaves);
    } else {
      RunMonotone(codec, history, j, i);
      RunOneRootPerSize(codec, history, j, i);
      assert leaves[..|leaves|] == leaves;
    }
  }

  /** What may follow a view. From a non-empty one onto a real log: exactly the log's own prefix
      root with the generated proof, so an honest extension is always taken. From an empty one:
      anything, with an empty proof. */
  lemma ExtendsExact(size: nat, root: Digest, next: Checkpoint, proof: seq<Digest>, leaves: seq<Digest>)
    requires next.size == |leaves| && next.root == Mth(leaves)
    ensures size == 0 ==> (Extends(size, root, next, proof) <==> proof == [])
    ensures size > 0 ==>
              (Extends(size, root, next, proof) <==>
                 size <= |leaves| && root == Mth(leaves[..size]) && proof == ProofNodes(size, leaves))
  {
    if 0 < size <= |leaves| { ConsistencyExact(root, proof, size, leaves); }
  }

  // Quorum

  /** Which of the first `n` entries of a witness list have a valid cosignature on the note. */
  function SignersBelow(codec: NoteCodec, schemes: Schemes<string>, note: string,
                        witnesses: seq<(string, PublicKey)>, n: nat): set<nat>
    requires n <= |witnesses|
  {
    if n == 0 then {}
    else
      SignersBelow(codec, schemes, note, witnesses, n - 1) +
      (if EntryCheckpoint(codec, schemes, note, witnesses[n - 1]).Some? then {n - 1} else {})
  }

  lemma {:induction false} SignersBound(codec: NoteCodec, schemes: Schemes<string>, note: string,
                                        witnesses: seq<(string, PublicKey)>, n: nat)
    requires n <= |witnesses|
    ensures forall i :: i in SignersBelow(codec, schemes, note, witnesses, n) ==> i < n
  {
    if n > 0 { SignersBound(codec, schemes, note, witnesses, n - 1); }
  }

  /** The next entry counts once, if it signed. */
  lemma SignersNext(codec: NoteCodec, schemes: Schemes<string>, note: string,
                    witnesses: seq<(string, PublicKey)>, n: nat)
    requires n < |witnesses|
    ensures var before, after := SignersBelow(codec, schemes, note, witnesses, n),
                                 SignersBelow(codec, schemes, note, witnesses, n + 1);
            if EntryCheckpoint(codec, schemes, note, witnesses[n]).Some? then |after| == |before| + 1
            else after == before
  {
    SignersBound(codec, schemes, note, witnesses, n);
    var before := SignersBelow(codec, schemes, note, witnesses, n);
    assert n !in before && n in before + {n};
  }

  /** Whoever signed, the checkpoint is the one in the note's body. */
  lemma EntryReadsBody(codec: NoteCodec, schemes: Schemes<string>, note: string, entry: (string, PublicKey))
    ensures EntryCheckpoint(codec, schemes, note, entry).Some? ==>
            EntryCheckpoint(codec, schemes, note, entry) == BodyCheckpoint(codec, note)
  {}

  function EntryCheckpoint(codec: NoteCodec, schemes: Schemes<string>, note: string,
                           entry: (string, PublicKey)): Option<Checkpoint> {
    NoteCheckpoint(codec, schemes, note, entry.0, entry.1)
  }

  function Signers(codec: NoteCodec, schemes: Schemes<string>, note: string,
                   witnesses: seq<(string, PublicKey)>): set<nat> {
    SignersBelow(codec, schemes, note, witnesses, |witnesses|)
  }

  lemma {:induction false} SignersExact(codec: NoteCodec, schemes: Schemes<string>, note: string,
                                        witnesses: seq<(string, PublicKey)>,
                                        n: nat, i: nat)
    requires i < n <= |witnesses|
    ensures i in SignersBelow(codec, schemes, note, witnesses, n) <==>
            NoteCheckpoint(codec, schemes, note, witnesses[i].0, witnesses[i].1).Some?
    decreases n
  {
    if i < n - 1 {
      SignersExact(codec, schemes, note, witnesses, n - 1, i);
    } else {
      SignersBound(codec, schemes, note, witnesses, n - 1);
    }
  }

  /** The note's own checkpoint, which is the only one any cosignature on it can be over. */
  function BodyCheckpoint(codec: NoteCodec, note: string): Option<Checkpoint> {
    match NoteBody(note)
    case None => None
    case Some(body) => ParseBody(codec, body)
  }

  /** Where the count stands after `n` entries: how many signed, and the note's checkpoint as soon
      as one has. */
  ghost predicate Tally(codec: NoteCodec, schemes: Schemes<string>, note: string,
                        witnesses: seq<(string, PublicKey)>, n: nat, agreed: Option<Checkpoint>, count: nat)
    requires n <= |witnesses|
  {
    && count == |SignersBelow(codec, schemes, note, witnesses, n)|
    && (agreed.Some? <==> 0 < count)
    && (agreed.Some? ==> agreed == BodyCheckpoint(codec, note))
  }

  lemma {:induction false} TallyNext(codec: NoteCodec, schemes: Schemes<string>, note: string,
                                     witnesses: seq<(string, PublicKey)>, n: nat, agreed: Option<Checkpoint>,
                                     count: nat)
    requires n < |witnesses| && Tally(codec, schemes, note, witnesses, n, agreed, count)
    ensures var cp := EntryCheckpoint(codec, schemes, note, witnesses[n]);
            if cp.None? then Tally(codec, schemes, note, witnesses, n + 1, agreed, count)
            else (agreed.Some? ==> agreed == cp) && Tally(codec, schemes, note, witnesses, n + 1, cp, count + 1)
  {
    SignersNext(codec, schemes, note, witnesses, n);
    EntryReadsBody(codec, schemes, note, witnesses[n]);
  }

  /** The count over the list. All valid cosignatures are over the note's one body, so the
      test for a disagreeing checkpoint never fires: the answer is the note's own checkpoint
      exactly when some entry signed it and at least `threshold` did. */
  method VerifyQuorum(codec: NoteCodec, schemes: Schemes<string>, note: string,
                      witnesses: seq<(string, PublicKey)>, threshold: nat) returns (agreed: Option<Checkpoint>)
    ensures var signers := |Signers(codec, schemes, note, witnesses)|;
            if 0 < signers && threshold <= signers then agreed.Some? && agreed == BodyCheckpoint(codec, note)
            else agreed.None?
  {
    agreed := None;
    var count := 0;
    for i := 0 to |witnesses|
      invariant Tally(codec, schemes, note, witnesses, i, agreed, count)
    {
      TallyNext(codec, schemes, note, witnesses, i, agreed, count);
      var cp := VerifyCheckpoint(codec, schemes, note, witnesses[i].0, witnesses[i].1);
      if cp.Some? {
        if agreed.Some? && agreed != cp { return None; }
        agreed := cp;
        count := count + 1;
      }
    }
    if count < threshold { agreed := None; }
  }

  /** A witness follows the rules: it has a run, and a valid signature under its key is over a
      body of that run. */
  ghost predicate Honest(codec: NoteCodec, schemes: Schemes<string>, key: PublicKey, history: seq<Cosigned>) {
    && Run(codec, history)
    && forall body, sig :: VerifySignature(schemes, body, sig, key) == Ok(true) ==>
         exists i :: 0 <= i < |history| && history[i].body == body
  }

  /** An honest witness's cosignature on a note means it cosigned the note's checkpoint. */
  lemma HonestCosigned(codec: NoteCodec, schemes: Schemes<string>, note: string, name: string, key: PublicKey,
                       history: seq<Cosigned>) returns (i: nat)
    requires Honest(codec, schemes, key, history) && NoteCheckpoint(codec, schemes, note, name, key).Some?
    ensures i < |history| && history[i].checkpoint == NoteCheckpoint(codec, schemes, note, name, key).value
  {
    var lines, body := TextLines(note), NoteBody(note).value;
    var k :| SigStart(lines).value <= k < |lines| && ValidSigLine(codec, schemes, lines[k], body, name, key);
    i :| 0 <= i < |history| && history[i].body == body;
    assert RunStep(codec, history, i);
  }

  /** Two large subsets of a list overlap outside a small one. */
  lemma QuorumsMeet(n: nat, a: set<nat>, b: set<nat>, faulty: set<nat>, t: nat, f: nat) returns (i: nat)
    requires forall k :: k in a || k in b ==> k < n
    requires t <= |a| && t <= |b| && |faulty| <= f && n + f < 2 * t
    ensures i in a && i in b && i !in faulty
  {
    assert forall k :: k in a + b ==> k in UpTo(n);
    SubsetSize(a + b, UpTo(n));
    assert |a + b| + |a * b| == |a| + |b|;
    if a * b <= faulty { SubsetSize(a * b, faulty); }
    i :| i in a * b && i !in faulty;
  }

  function UpTo(n: nat): (s: set<nat>)
    ensures |s| == n && forall k: nat :: k in s <==> k < n
  {
    if n == 0 then {} else UpTo(n - 1) + {n - 1}
  }

  lemma SubsetSize(a: set<nat>, b: set<nat>)
    requires a <= b
    ensures |a| <= |b|
  {
    assert b == a + (b - a);
  }

  /** Two notes with these checkpoints each carry `t` cosignatures from one witness list of which
      at most `f` entries deviate, with `2t > w + f`. */
  ghost predicate TwoQuorums(codec: NoteCodec, schemes: Schemes<string>, witnesses: seq<(string, PublicKey)>,
                             histories: seq<seq<Cosigned>>, faulty: set<nat>, t: nat, f: nat,
                             noteA: string, noteB: string, cpA: Checkpoint, cpB: Checkpoint) {
    && |histories| == |witnesses| && |faulty| <= f && |witnesses| + f < 2 * t
    && (forall i :: 0 <= i < |witnesses| && i !in faulty ==> Honest(codec, schemes, witnesses[i].1, histories[i]))
    && t <= |Signers(codec, schemes, noteA, witnesses)| && t <= |Signers(codec, schemes, noteB, witnesses)|
    && BodyCheckpoint(codec, noteA) == Some(cpA) && BodyCheckpoint(codec, noteB) == Some(cpB)
  }

  /** Some witness that follows the rules cosigned both checkpoints. */
  lemma QuorumsShare(codec: NoteCodec, schemes: Schemes<string>, witnesses: seq<(string, PublicKey)>,
                     histories: seq<seq<Cosigned>>, faulty: set<nat>, t: nat, f: nat,
                     noteA: string, noteB: string, cpA: Checkpoint, cpB: Checkpoint)
      returns (history: seq<Cosigned>, i: nat, j: nat)
    requires TwoQuorums(codec, schemes, witnesses, histories, faulty, t, f, noteA, noteB, cpA, cpB)
    ensures Run(codec, history) && i < |history| && j < |history|
    ensures history[i].checkpoint == cpA && history[j].checkpoint == cpB
  {
    SignersBound(codec, schemes, noteA, witnesses, |witnesses|);
    SignersBound(codec, schemes, noteB, witnesses, |witnesses|);
    var w := QuorumsMeet(|witnesses|, Signers(codec, schemes, noteA, witnesses),
                         Signers(codec, schemes, noteB, witnesses), faulty, t, f);
    SignersExact(codec, schemes, noteA, witnesses, |witnesses|, w);
    SignersExact(codec, schemes, noteB, witnesses, |witnesses|, w);
    history := histories[w];
    i := HonestCosigned(codec, schemes, noteA, witnesses[w].0, witnesses[w].1, history);
    j := HonestCosigned(codec, schemes, noteB, witnesses[w].0, witnesses[w].1, history);
  }

  /** MAIN RESULT. Whatever the log signs, two quorums never certify two roots at one non-empty size. */
  lemma QuorumsOneRootPerSize(codec: NoteCodec, schemes: Schemes<string>, witnesses: seq<(string, PublicKey)>,
                              histories: seq<seq<Cosigned>>, faulty: set<nat>, t: nat, f: nat,
                              noteA: string, noteB: string, cpA: Checkpoint, cpB: Checkpoint)
    requires TwoQuorums(codec, schemes, witnesses, histories, faulty, t, f, noteA, noteB, cpA, cpB)
    requires 0 < cpA.size == cpB.size
    ensures cpA.root == cpB.root
  {
    var history, i, j := QuorumsShare(codec, schemes, witnesses, histories, faulty, t, f, noteA, noteB, cpA, cpB);
    if i <= j {
      RunOneRootPerSize(codec, history, i, j);
    } else {
      RunOneRootPerSize(codec, history, j, i);
    }
  }

  /** MAIN RESULT. Where the larger of two certified checkpoints is a real log, the smaller one,
      whatever the log signed for it, carries the root of that log's own prefix. */
  lemma QuorumsPrefixRoot(codec: NoteCodec, schemes: Schemes<string>, witnesses: seq<(string, PublicKey)>,
                          histories: seq<seq<Cosigned>>, faulty: set<nat>, t: nat, f: nat,
                          noteA: string, noteB: string, cpA: Checkpoint, cpB: Checkpoint, leaves: seq<Digest>)
    requires TwoQuorums(codec, schemes, witnesses, histories, faulty, t, f, noteA, noteB, cpA, cpB)
    requires 0 < cpA.size <= cpB.size == |leaves| && cpB.root == Mth(leaves)
    ensures cpA.root == Mth(leaves[..cpA.size])
  {
    var history, i, j := QuorumsShare(codec, schemes, witnesses, histories, faulty, t, f, noteA, noteB, cpA, cpB);
    RunPrefixRoot(codec, history, i, j, leaves);
  }

  /** MAIN RESULT. Where both checkpoints are real logs, one is a prefix of the other. */
  lemma QuorumNonEquivocation(codec: NoteCodec, schemes: Schemes<string>, witnesses: seq<(string, PublicKey)>,
                              histories: seq<seq<Cosigned>>, faulty: set<nat>, t: nat, f: nat,
                              noteA: string, noteB: string, cpA: Checkpoint, cpB: Checkpoint,
                              a: seq<Receipt>, b: seq<Receipt>)
    requires TwoQuorums(codec, schemes, witnesses, histories, faulty, t, f, noteA, noteB, cpA, cpB)
    requires 0 < cpA.size == |a| && cpA.root == Mth(LeafHashes(a))
    requires 0 < cpB.size == |b| && cpB.root == Mth(LeafHashes(b))
    ensures a <= b || b <= a
  {
    if |a| <= |b| {
      QuorumsPrefixRoot(codec, schemes, witnesses, histories, faulty, t, f, noteA, noteB, cpA, cpB, LeafHashes(b));
      PrefixOfRoot(a, b);
    } else {
      QuorumsPrefixRoot(codec, schemes, witnesses, histories, faulty, t, f, noteB, noteA, cpB, cpA, LeafHashes(a));
      PrefixOfRoot(b, a);
    }
  }

  lemma PrefixOfRoot(a: seq<Receipt>, b: seq<Receipt>)
    requires |a| <= |b| && Mth(LeafHashes(a)) == Mth(LeafHashes(b)[..|a|])
    ensures a <= b
  {
    MthInjective(LeafHashes(a), LeafHashes(b)[..|a|]);
    LeafHashesPrefix(a, b);
  }
}
