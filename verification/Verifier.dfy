/** The composed verifier: chain, binding, gossip-trusted root, inclusion and independent
    attestation, each refusal with its own reason. */
module Verifier {
  import opened Wrappers
  import opened Digests
  import opened MerkleTree
  import opened Inclusion
  import opened Signatures
  import opened Scopes
  import opened Chains
  import opened WitnessLog
  import opened KeyOrder
  import opened RevocationMaps
  import opened LogBackedMap
  import opened RevocationChecks
  import opened Attestations

  /** The cryptography a verifier runs on: signature checks per kind of message, the digest of a
      chain, the purpose-bound digest of an action and the id of a signature. */
  datatype Primitives = Primitives(
    chain: Schemes<ChainPayload>,
    attestation: Schemes<AttestationPayload>,
    head: Schemes<TreeHead>,
    chainDigest: Token -> Digest,
    bindAction: (string, Digest) -> Digest,
    idOf: seq<Byte> -> RevocationId)

  datatype VerifyPolicy = VerifyPolicy(trustedAttesters: seq<PublicKey>, allowCounterSigned: bool)

  datatype VerifiableAction = VerifiableAction(chain: Token, receipt: Receipt, completion: CompletionAttestation)

  datatype VerifiableThresholdAction = VerifiableThresholdAction(chain: Token, receipt: Receipt,
                                                                 completion: ThresholdAttestation)

  datatype VerifyError =
    | ChainInvalid(chainError: ChainError)
    | Omission
    | Equivocation
    | AttestationInvalid(attestationError: AttestationError)
    | OutcomeMismatch
    | AttesterNotAnchored
    | ChainBindingMismatch
    | ActionDigestInconsistent
    | ThresholdFailed(thresholdError: ThresholdError)
    | InsufficientAttestation(required: nat, declared: nat)
    | HopRevoked
    | PurposeMismatch

  predicate ChainHasKey(chain: Token, key: PublicKey) {
    || chain.root.principalKey == key
    || exists d :: d in chain.delegations && (d.fromKey == key || d.toKey == key)
  }

  /** The attester's identity is one the policy accepts for its role. */
  predicate Anchored(chain: Token, a: CompletionAttestation, policy: VerifyPolicy) {
    match a.role
    case ThirdParty => a.attesterKey in policy.trustedAttesters
    case CounterSigned => policy.allowCounterSigned && ChainHasKey(chain, a.attesterKey)
  }

  /** What was attested and what was requested must both be what the receipt records. */
  function DigestVerdict(receipt: Receipt, a: CompletionAttestation): Result<(), VerifyError> {
    if a.outcomeDigest != receipt.actionDigest then Err(OutcomeMismatch)
    else if a.requestedActionDigest != receipt.actionDigest then Err(ActionDigestInconsistent)
    else Ok(())
  }

  function Verify(crypto: Primitives, action: VerifiableAction, rootKey: PublicKey, trustedRoot: Digest,
                  policy: VerifyPolicy):
      Result<Scope, VerifyError>
  {
    var a, chain := action.completion, action.chain;
    match ChainVerdict(crypto.chain, chain, rootKey)
    case Err(e) => Err(ChainInvalid(e))
    case Ok(scope) =>
      if action.receipt.chainDigest != crypto.chainDigest(chain) || a.chainDigest != crypto.chainDigest(chain) then
        Err(ChainBindingMismatch)
      else if a.witnessedRoot != trustedRoot then Err(Equivocation)
      else if !AcceptsInclusion(action.receipt, a.inclusion, trustedRoot) then Err(Omission)
      else
        match CompletionVerdict(crypto.attestation, a, ExecutorKey(chain))
        case Err(e) => Err(AttestationInvalid(e))
        case Ok(_) =>
          if !Anchored(chain, a, policy) then Err(AttesterNotAnchored)
          else
            match DigestVerdict(action.receipt, a)
            case Err(e) => Err(e)
            case Ok(_) => Ok(scope)
  }

  /** The first member, in order, whose digests are off. */
  function FirstDigestError(receipt: Receipt, members: seq<CompletionAttestation>): Result<(), VerifyError> {
    if members == [] then Ok(())
    else
      match DigestVerdict(receipt, members[0])
      case Err(e) => Err(e)
      case Ok(_) => FirstDigestError(receipt, members[1..])
  }

  function VerifyThreshold(crypto: Primitives, action: VerifiableThresholdAction, rootKey: PublicKey,
                           trustedRoot: Digest,
                           requiredThreshold: nat, policy: VerifyPolicy): Result<Scope, VerifyError>
  {
    var members, chain := action.completion.attestations, action.chain;
    match ChainVerdict(crypto.chain, chain, rootKey)
    case Err(e) => Err(ChainInvalid(e))
    case Ok(scope) =>
      if action.completion.threshold < requiredThreshold then
        Err(InsufficientAttestation(requiredThreshold, action.completion.threshold))
      else if action.receipt.chainDigest != crypto.chainDigest(chain)
           || (exists a :: a in members && a.chainDigest != crypto.chainDigest(chain)) then Err(ChainBindingMismatch)
      else if exists a :: a in members && a.witnessedRoot != trustedRoot then Err(Equivocation)
      else if exists a :: a in members && !AcceptsInclusion(action.receipt, a.inclusion, trustedRoot) then Err(Omission)
      else
        match ThresholdVerdict(crypto.attestation, action.completion, ExecutorKey(chain))
        case Err(e) => Err(ThresholdFailed(e))
        case Ok(_) =>
          if exists a :: a in members && !Anchored(chain, a, policy) then Err(AttesterNotAnchored)
          else
            match FirstDigestError(action.receipt, members)
            case Err(e) => Err(e)
            case Ok(_) => Ok(scope)
  }

  // What acceptance means

  /** Everything about one attestation except who signed it. */
  ghost predicate FitsAction(crypto: Primitives, chain: Token, receipt: Receipt, a: CompletionAttestation,
                             trustedRoot: Digest, policy: VerifyPolicy)
  {
    && BindingOf(a) == Binding(crypto.chainDigest(chain), receipt.actionDigest, receipt.actionDigest, trustedRoot)
    && AcceptsInclusion(receipt, a.inclusion, trustedRoot)
    && Anchored(chain, a, policy)
  }

  lemma VerifyAccepts(crypto: Primitives, action: VerifiableAction, rootKey: PublicKey, trustedRoot: Digest,
                      policy: VerifyPolicy, scope: Scope)
    ensures Verify(crypto, action, rootKey, trustedRoot, policy) == Ok(scope) <==>
            && ChainVerdict(crypto.chain, action.chain, rootKey) == Ok(scope)
            && action.receipt.chainDigest == crypto.chainDigest(action.chain)
            && FitsAction(crypto, action.chain, action.receipt, action.completion, trustedRoot, policy)
            && Vouches(crypto.attestation, action.completion, ExecutorKey(action.chain))
  {}

  /** MAIN RESULT. Against the root of a real log, acceptance means exactly this: every block of
      the chain is good and the scope is its tail's; the log holds the receipt, which names this
      chain; the attestation binds the chain, the recorded action as request and as outcome,
      and that root, with a genuine audit path; and it is validly signed by an anchored key
      other than the executor's. */
  lemma VerifyEndToEnd(crypto: Primitives, action: VerifiableAction, rootKey: PublicKey, log: seq<Receipt>,
                       policy: VerifyPolicy, scope: Scope)
    requires |log| <= WORD
    ensures Verify(crypto, action, rootKey, Mth(LeafHashes(log)), policy) == Ok(scope) <==>
            && GoodChain(crypto.chain, action.chain, rootKey) && scope == TailScope(action.chain)
            && action.receipt.chainDigest == crypto.chainDigest(action.chain)
            && var a := action.completion;
            && BindingOf(a) == Binding(crypto.chainDigest(action.chain), action.receipt.actionDigest,
                                       action.receipt.actionDigest, Mth(LeafHashes(log)))
            && a.inclusion.leafIndex < a.inclusion.treeSize
            && (exists i :: && 0 <= i < |log| && log[i] == action.receipt
                            && a.inclusion.path == AuditPath(LeafHashes(log), i))
            && Anchored(action.chain, a, policy)
            && a.attesterKey != ExecutorKey(action.chain)
            && VerifySignature(crypto.attestation, SigningPayload(a), a.signature, a.attesterKey) == Ok(true)
  {
    VerifyAccepts(crypto, action, rootKey, Mth(LeafHashes(log)), policy, scope);
    VerifyExact(crypto.chain, action.chain, rootKey, scope);
    InclusionExact(action.receipt, action.completion.inclusion, log);
  }

  /** Refusals that the design is for: with a good, bound chain and the trusted root, an action
      missing from the log is an omission; a logged one attested by its own executor is not
      independent; and one attested by a stranger is not anchored. */
  lemma RefusalsNamed(crypto: Primitives, action: VerifiableAction, rootKey: PublicKey, log: seq<Receipt>,
                      policy: VerifyPolicy)
    requires |log| <= WORD && ChainVerdict(crypto.chain, action.chain, rootKey).Ok?
    requires action.receipt.chainDigest == action.completion.chainDigest == crypto.chainDigest(action.chain)
    requires action.completion.witnessedRoot == Mth(LeafHashes(log))
    ensures var verdict := Verify(crypto, action, rootKey, Mth(LeafHashes(log)), policy);
            && (action.receipt !in log ==> verdict == Err(Omission))
            && (verdict != Err(Omission) && action.completion.attesterKey == ExecutorKey(action.chain) ==>
                  verdict == Err(AttestationInvalid(NotIndependent)))
            && (verdict != Err(Omission) &&
                Vouches(crypto.attestation, action.completion, ExecutorKey(action.chain)) ==>
                  (verdict == Err(AttesterNotAnchored) <==> !Anchored(action.chain, action.completion, policy)))
  {
    InclusionExact(action.receipt, action.completion.inclusion, log);
  }

  /** In a good chain the keys named by its blocks are the keys it was handed along. */
  lemma ChainKeys(schemes: Schemes<ChainPayload>, chain: Token, rootKey: PublicKey, key: PublicKey)
    requires GoodChain(schemes, chain, rootKey)
    ensures ChainHasKey(chain, key) <==> exists i: nat :: i <= |chain.delegations| && KeyAt(chain, i) == key
  {
    if ChainHasKey(chain, key) && chain.root.principalKey != key {
      var d :| d in chain.delegations && (d.fromKey == key || d.toKey == key);
      var k :| 0 <= k < |chain.delegations| && chain.delegations[k] == d;
      assert GoodBlock(schemes, chain, k + 1);
      assert KeyAt(chain, k) == d.fromKey && KeyAt(chain, k + 1) == d.toKey;
    } else if chain.root.principalKey == key {
      assert KeyAt(chain, 0) == key;
    }
  }

  /** MAIN RESULT. Whoever attested an accepted action is a third party the policy trusts, or,
      where the policy allows it, a party the authority passed through before the executor. */
  lemma AttesterTrustedOrDelegator(crypto: Primitives, action: VerifiableAction, rootKey: PublicKey,
                                   trustedRoot: Digest, policy: VerifyPolicy)
    requires Verify(crypto, action, rootKey, trustedRoot, policy).Ok?
    ensures match action.completion.role
            case ThirdParty => action.completion.attesterKey in policy.trustedAttesters
            case CounterSigned =>
              && policy.allowCounterSigned
              && exists i: nat :: && i < |action.chain.delegations|
                                  && KeyAt(action.chain, i) == action.completion.attesterKey
  {
    var scope := Verify(crypto, action, rootKey, trustedRoot, policy).value;
    VerifyAccepts(crypto, action, rootKey, trustedRoot, policy, scope);
    VerifyExact(crypto.chain, action.chain, rootKey, scope);
    ChainKeys(crypto.chain, action.chain, rootKey, action.completion.attesterKey);
  }

  /** The default policy trusts nobody, and nothing passes under it. */
  lemma DefaultPolicyRefusesAll(crypto: Primitives, action: VerifiableAction, rootKey: PublicKey, trustedRoot: Digest)
    ensures Verify(crypto, action, rootKey, trustedRoot, VerifyPolicy([], false)).Err?
  {
    if Verify(crypto, action, rootKey, trustedRoot, VerifyPolicy([], false)).Ok? {
      AttesterTrustedOrDelegator(crypto, action, rootKey, trustedRoot, VerifyPolicy([], false));
    }
  }

  /** Which roles are anchored by what: a third party by the policy's list, a counter-signer by any
      key the chain names, where the policy allows it. */
  lemma AnchoredExact(chain: Token, a: CompletionAttestation, policy: VerifyPolicy)
    ensures a.role == ThirdParty ==> (Anchored(chain, a, policy) <==> a.attesterKey in policy.trustedAttesters)
    ensures a.role == CounterSigned ==>
              (Anchored(chain, a, policy) <==>
                 policy.allowCounterSigned &&
                 (chain.root.principalKey == a.attesterKey ||
                  exists d :: d in chain.delegations && (d.fromKey == a.attesterKey || d.toKey == a.attesterKey)))
  {}

  /** Which refusal of an action names which fault, in the order of the checks. */
  lemma VerifyFaults(crypto: Primitives, action: VerifiableAction, rootKey: PublicKey, trustedRoot: Digest,
                     policy: VerifyPolicy)
    ensures var a, chain, receipt := action.completion, action.chain, action.receipt;
            var verdict := Verify(crypto, action, rootKey, trustedRoot, policy);
            var chained := ChainVerdict(crypto.chain, chain, rootKey);
            var bound := receipt.chainDigest == crypto.chainDigest(chain) == a.chainDigest;
            var rooted := chained.Ok? && bound && a.witnessedRoot == trustedRoot;
            var included := rooted && AcceptsInclusion(receipt, a.inclusion, trustedRoot);
            var attested := CompletionVerdict(crypto.attestation, a, ExecutorKey(chain));
            var anchored := included && attested.Ok? && Anchored(chain, a, policy);
            && (chained.Err? ==> verdict == Err(ChainInvalid(chained.error)))
            && (chained.Ok? && !bound ==> verdict == Err(ChainBindingMismatch))
            && (chained.Ok? && bound && a.witnessedRoot != trustedRoot ==> verdict == Err(Equivocation))
            && (rooted && !included ==> verdict == Err(Omission))
            && (included && attested.Err? ==> verdict == Err(AttestationInvalid(attested.error)))
            && (included && attested.Ok? && !anchored ==> verdict == Err(AttesterNotAnchored))
            && (anchored && a.outcomeDigest != receipt.actionDigest ==> verdict == Err(OutcomeMismatch))
            && (anchored && a.outcomeDigest == receipt.actionDigest != a.requestedActionDigest ==>
                  verdict == Err(ActionDigestInconsistent))
            && (anchored && a.outcomeDigest == receipt.actionDigest == a.requestedActionDigest ==>
                  verdict == Ok(chained.value))
  {}

  /** The same for a bundle: the declared threshold is looked at before any member, and the binding,
      the root and the inclusion of every member before any signature. */
  lemma ThresholdEarlyFaults(crypto: Primitives, action: VerifiableThresholdAction, rootKey: PublicKey,
                             trustedRoot: Digest, required: nat, policy: VerifyPolicy)
    ensures var chain, receipt, members := action.chain, action.receipt, action.completion.attestations;
            var verdict := VerifyThreshold(crypto, action, rootKey, trustedRoot, required, policy);
            var chained, digest := ChainVerdict(crypto.chain, chain, rootKey), crypto.chainDigest(chain);
            if chained.Err? then verdict == Err(ChainInvalid(chained.error))
            else if action.completion.threshold < required then
              verdict == Err(InsufficientAttestation(required, action.completion.threshold))
            else if !(receipt.chainDigest == digest && forall a :: a in members ==> a.chainDigest == digest) then
              verdict == Err(ChainBindingMismatch)
            else if exists a :: a in members && a.witnessedRoot != trustedRoot then verdict == Err(Equivocation)
            else (exists a :: a in members && !AcceptsInclusion(receipt, a.inclusion, trustedRoot)) ==>
                   verdict == Err(Omission)
  {}

  /** Nothing about a bundle's members is wrong before their signatures are looked at. */
  ghost predicate WellWitnessed(crypto: Primitives, action: VerifiableThresholdAction, rootKey: PublicKey,
                                trustedRoot: Digest, required: nat) {
    && ChainVerdict(crypto.chain, action.chain, rootKey).Ok? && required <= action.completion.threshold
    && action.receipt.chainDigest == crypto.chainDigest(action.chain)
    && forall a :: a in action.completion.attestations ==>
         && a.chainDigest == crypto.chainDigest(action.chain) && a.witnessedRoot == trustedRoot
         && AcceptsInclusion(action.receipt, a.inclusion, trustedRoot)
  }

  /** Then come the bundle's own verdict, the anchoring of every member, and the digests of the
      members in order. */
  lemma ThresholdLateFaults(crypto: Primitives, action: VerifiableThresholdAction, rootKey: PublicKey,
                            trustedRoot: Digest, required: nat, policy: VerifyPolicy)
    requires WellWitnessed(crypto, action, rootKey, trustedRoot, required)
    ensures var members := action.completion.attestations;
            var verdict := VerifyThreshold(crypto, action, rootKey, trustedRoot, required, policy);
            var held := ThresholdVerdict(crypto.attestation, action.completion, ExecutorKey(action.chain));
            if held.Err? then verdict == Err(ThresholdFailed(held.error))
            else if exists a :: a in members && !Anchored(action.chain, a, policy) then
              verdict == Err(AttesterNotAnchored)
            else match FirstDigestError(action.receipt, members)
                 case Err(e) => verdict == Err(e)
                 case Ok(_) => verdict == Ok(ChainVerdict(crypto.chain, action.chain, rootKey).value)
  {}

  /** The first member whose digests are off decides, its outcome before its request. */
  lemma {:induction false} FirstDigestFault(receipt: Receipt, members: seq<CompletionAttestation>, i: nat)
    requires i < |members|
    requires forall j :: 0 <= j < i ==>
               members[j].outcomeDigest == receipt.actionDigest == members[j].requestedActionDigest
    ensures members[i].outcomeDigest != receipt.actionDigest ==>
              FirstDigestError(receipt, members) == Err(OutcomeMismatch)
    ensures members[i].outcomeDigest == receipt.actionDigest != members[i].requestedActionDigest ==>
              FirstDigestError(receipt, members) == Err(ActionDigestInconsistent)
  {
    if i > 0 { FirstDigestFault(receipt, members[1..], i - 1); }
  }

  lemma {:induction false} FirstDigestErrorExact(receipt: Receipt, members: seq<CompletionAttestation>)
    ensures FirstDigestError(receipt, members).Ok? <==> forall a :: a in members ==> DigestVerdict(receipt, a).Ok?
  {
    if members != [] {
      FirstDigestErrorExact(receipt, members[1..]);
      assert members == [members[0]] + members[1..];
    }
  }

  /** The keys of the members that would pass `Verify` on their own. */
  ghost function AcceptedKeys(crypto: Primitives, action: VerifiableThresholdAction, rootKey: PublicKey,
                              trustedRoot: Digest, policy: VerifyPolicy): set<PublicKey>
  {
    set a | a in action.completion.attestations
            && Verify(crypto, VerifiableAction(action.chain, action.receipt, a), rootKey, trustedRoot, policy).Ok? ::
               a.attesterKey
  }

  ghost predicate AllFit(crypto: Primitives, action: VerifiableThresholdAction, trustedRoot: Digest,
                         policy: VerifyPolicy) {
    forall a :: a in action.completion.attestations ==>
           FitsAction(crypto, action.chain, action.receipt, a, trustedRoot, policy)
  }

  lemma ThresholdAccepts(crypto: Primitives, action: VerifiableThresholdAction, rootKey: PublicKey,
                         trustedRoot: Digest, requiredThreshold: nat, policy: VerifyPolicy, scope: Scope)
    ensures VerifyThreshold(crypto, action, rootKey, trustedRoot, requiredThreshold, policy) == Ok(scope) <==>
            && ChainVerdict(crypto.chain, action.chain, rootKey) == Ok(scope)
            && action.receipt.chainDigest == crypto.chainDigest(action.chain)
            && requiredThreshold <= action.completion.threshold
            && AllFit(crypto, action, trustedRoot, policy)
            && DistinctKeys(action.completion.attestations)
            && action.completion.threshold <= CountVouching(crypto.attestation, action.completion.attestations,
                                                            ExecutorKey(action.chain))
  {
    FirstDigestErrorExact(action.receipt, action.completion.attestations);
    if AllFit(crypto, action, trustedRoot, policy) { FittingBundle(crypto, action, trustedRoot, policy); }
  }

  lemma FittingBundle(crypto: Primitives, action: VerifiableThresholdAction, trustedRoot: Digest, policy: VerifyPolicy)
    requires AllFit(crypto, action, trustedRoot, policy)
    ensures SameBinding(action.completion.attestations)
    ensures forall a :: a in action.completion.attestations ==> DigestVerdict(action.receipt, a).Ok?
  {
    var members := action.completion.attestations;
    if members != [] { assert members[0] in members; }
  }

  /** MAIN RESULT. The k-of-n verifier accepts exactly when the bar is met, every member fits the
      action, keys are distinct and at least the declared number of parties would each pass the
      single verifier, for the same scope. */
  lemma ThresholdIsManySingles(crypto: Primitives, action: VerifiableThresholdAction,
                               rootKey: PublicKey, trustedRoot: Digest,
                               requiredThreshold: nat, policy: VerifyPolicy, scope: Scope)
    ensures VerifyThreshold(crypto, action, rootKey, trustedRoot, requiredThreshold, policy) == Ok(scope) <==>
            && ChainVerdict(crypto.chain, action.chain, rootKey) == Ok(scope)
            && action.receipt.chainDigest == crypto.chainDigest(action.chain)
            && AllFit(crypto, action, trustedRoot, policy)
            && DistinctKeys(action.completion.attestations)
            && requiredThreshold <= action.completion.threshold
            && action.completion.threshold <= |AcceptedKeys(crypto, action, rootKey, trustedRoot, policy)|
  {
    var members, executor := action.completion.attestations, ExecutorKey(action.chain);
    ThresholdAccepts(crypto, action, rootKey, trustedRoot, requiredThreshold, policy, scope);
    if ChainVerdict(crypto.chain, action.chain, rootKey) == Ok(scope) &&
       action.receipt.chainDigest == crypto.chainDigest(action.chain) {
      if AllFit(crypto, action, trustedRoot, policy) && DistinctKeys(members) {
        CountIsParties(crypto.attestation, members, executor);
        AcceptedAreVouching(crypto, action, rootKey, trustedRoot, policy, scope);
      }
    }
  }

  /** Among members that fit the action, those accepted singly are those that vouch. */
  lemma AcceptedAreVouching(crypto: Primitives, action: VerifiableThresholdAction, rootKey: PublicKey,
                            trustedRoot: Digest, policy: VerifyPolicy, scope: Scope)
    requires ChainVerdict(crypto.chain, action.chain, rootKey) == Ok(scope)
    requires action.receipt.chainDigest == crypto.chainDigest(action.chain)
    requires AllFit(crypto, action, trustedRoot, policy)
    ensures AcceptedKeys(crypto, action, rootKey, trustedRoot, policy) ==
            VouchingKeys(crypto.attestation, action.completion.attestations, ExecutorKey(action.chain))
  {
    forall a | a in action.completion.attestations
      ensures Verify(crypto, VerifiableAction(action.chain, action.receipt, a), rootKey, trustedRoot, policy).Ok? <==>
              Vouches(crypto.attestation, a, ExecutorKey(action.chain))
    {
      VerifyAccepts(crypto, VerifiableAction(action.chain, action.receipt, a), rootKey, trustedRoot, policy, scope);
    }
  }

  /** Some member validly signed under this anchored key binds the chain, the recorded action as
      request and as outcome, and the trusted root. */
  ghost predicate SignedByParty(crypto: Primitives, action: VerifiableThresholdAction, trustedRoot: Digest,
                                policy: VerifyPolicy, key: PublicKey)
  {
    exists a :: a in action.completion.attestations && (
      && a.attesterKey == key && Anchored(action.chain, a, policy)
      && BindingOf(a) == Binding(crypto.chainDigest(action.chain), action.receipt.actionDigest,
                                 action.receipt.actionDigest, trustedRoot)
      && VerifySignature(crypto.attestation, SigningPayload(a), a.signature, key) == Ok(true))
  }

  /** MAIN RESULT. A bundle accepted at a positive bar proves that at least that many distinct
      parties, none of them the executor and each anchored, validly signed one binding: this
      chain, the recorded action as request and as outcome, and the trusted root. */
  lemma ThresholdParties(crypto: Primitives, action: VerifiableThresholdAction, rootKey: PublicKey, trustedRoot: Digest,
                         requiredThreshold: nat, policy: VerifyPolicy) returns (parties: set<PublicKey>)
    requires VerifyThreshold(crypto, action, rootKey, trustedRoot, requiredThreshold, policy).Ok?
    ensures requiredThreshold <= |parties| && ExecutorKey(action.chain) !in parties
    ensures forall key :: key in parties ==> SignedByParty(crypto, action, trustedRoot, policy, key)
  {
    var scope := VerifyThreshold(crypto, action, rootKey, trustedRoot, requiredThreshold, policy).value;
    ThresholdIsManySingles(crypto, action, rootKey, trustedRoot, requiredThreshold, policy, scope);
    parties := VouchingKeys(crypto.attestation, action.completion.attestations, ExecutorKey(action.chain));
    AcceptedAreVouching(crypto, action, rootKey, trustedRoot, policy, scope);
  }

  /** A bundle of one, declaring one, at a bar of one, is the single attestation. */
  lemma OneOfOneIsSingle(crypto: Primitives, action: VerifiableAction, rootKey: PublicKey,
                         trustedRoot: Digest, policy: VerifyPolicy, scope: Scope)
    ensures var bundle := VerifiableThresholdAction(action.chain, action.receipt,
                                                    ThresholdAttestation([action.completion], 1));
            VerifyThreshold(crypto, bundle, rootKey, trustedRoot, 1, policy) == Ok(scope) <==>
            Verify(crypto, action, rootKey, trustedRoot, policy) == Ok(scope)
  {
    var bundle := VerifiableThresholdAction(action.chain, action.receipt, ThresholdAttestation([action.completion], 1));
    ThresholdIsManySingles(crypto, bundle, rootKey, trustedRoot, 1, policy, scope);
    VerifyAccepts(crypto, action, rootKey, trustedRoot, policy, scope);
    var accepted := AcceptedKeys(crypto, bundle, rootKey, trustedRoot, policy);
    if Verify(crypto, action, rootKey, trustedRoot, policy).Ok? {
      assert VerifiableAction(bundle.chain, bundle.receipt, bundle.completion.attestations[0]) == action;
      assert accepted == {action.completion.attesterKey};
    } else {
      assert accepted == {};
    }
  }

  /** At a bar of zero an empty bundle is accepted on the chain and the receipt's binding alone:
      nothing ties the receipt to the trusted root. The guarantees above need a positive bar. */
  lemma ZeroBarWitnessesNothing(crypto: Primitives, chain: Token, receipt: Receipt, rootKey: PublicKey,
                                trustedRoot: Digest, requiredThreshold: nat, policy: VerifyPolicy)
    ensures VerifyThreshold(crypto, VerifiableThresholdAction(chain, receipt, ThresholdAttestation([], 0)), rootKey,
                            trustedRoot, requiredThreshold, policy).Ok? <==>
            && requiredThreshold == 0
            && ChainVerdict(crypto.chain, chain, rootKey).Ok? && receipt.chainDigest == crypto.chainDigest(chain)
  {}

  /** At any positive bar, an accepted bundle's receipt is in the log behind the trusted root. */
  lemma ThresholdNotOmitted(crypto: Primitives, action: VerifiableThresholdAction,
                            rootKey: PublicKey, log: seq<Receipt>,
                            requiredThreshold: nat, policy: VerifyPolicy)
    requires |log| <= WORD && 0 < requiredThreshold
    requires VerifyThreshold(crypto, action, rootKey, Mth(LeafHashes(log)), requiredThreshold, policy).Ok?
    ensures action.receipt in log
  {
    var parties := ThresholdParties(crypto, action, rootKey, Mth(LeafHashes(log)), requiredThreshold, policy);
    assert action.completion.attestations != [] by {
      if parties != {} { var key :| key in parties; }
    }
    var a := action.completion.attestations[0];
    InclusionExact(action.receipt, a.inclusion, log);
  }

  // Revocation

  datatype RevocationEvidence = RevocationEvidence(logKey: PublicKey, proofs: map<RevocationId, LogBackedProof>)

  /** Eight bits as a byte, the most significant first. */
  function Octet(b0: bool, b1: bool, b2: bool, b3: bool, b4: bool, b5: bool, b6: bool, b7: bool): bv8 {
    (if b0 then 0x80 else 0) | (if b1 then 0x40 else 0) | (if b2 then 0x20 else 0) | (if b3 then 0x10 else 0) |
    (if b4 then 0x08 else 0) | (if b5 then 0x04 else 0) | (if b6 then 0x02 else 0) | (if b7 then 0x01 else 0)
  }

  /** Binary digit `j` of a byte's value, the most significant first. */
  predicate Digit(value: nat, j: nat)
    requires j < 8
    decreases 8 - j
  {
    if j == 7 then value % 2 == 1 else Digit(value / 2, j + 1)
  }

  /** A byte's value as eight bits. */
  function ByteOf(value: Byte): bv8 {
    Octet(Digit(value, 0), Digit(value, 1), Digit(value, 2), Digit(value, 3),
          Digit(value, 4), Digit(value, 5), Digit(value, 6), Digit(value, 7))
  }

  /** The map key of an id: its bits. */
  function KeyBits(id: RevocationId): (key: BitKey)
    ensures |key| == 8 * |id|
  {
    Bits(seq(|id|, i requires 0 <= i < |id| => ByteOf(id[i])))
  }

  /** A hop is proven live: a missing proof or an id of the wrong width fails closed. */
  predicate HopProvenLive(crypto: Primitives, id: RevocationId, evidence: RevocationEvidence) {
    && id in evidence.proofs
    && |id| == KEY_WIDTH
    && VerifyNotRevoked(crypto.head, evidence.proofs[id], KeyBits(id), evidence.logKey, KEY_WIDTH)
  }

  function ChainNotRevoked(crypto: Primitives, chain: Token, evidence: RevocationEvidence): Result<(), VerifyError> {
    var ids := RevocationIds(crypto.idOf, chain);
    if forall id :: id in ids ==> HopProvenLive(crypto, id, evidence) then Ok(()) else Err(HopRevoked)
  }

  function VerifyWithRevocation(crypto: Primitives, action: VerifiableAction, rootKey: PublicKey, trustedRoot: Digest,
                                policy: VerifyPolicy, evidence: RevocationEvidence): Result<Scope, VerifyError>
  {
    match ChainNotRevoked(crypto, action.chain, evidence)
    case Err(e) => Err(e)
    case Ok(_) => Verify(crypto, action, rootKey, trustedRoot, policy)
  }

  function VerifyThresholdWithRevocation(crypto: Primitives, action: VerifiableThresholdAction, rootKey: PublicKey,
                                         trustedRoot: Digest,
                                         requiredThreshold: nat, policy: VerifyPolicy, evidence: RevocationEvidence):
      Result<Scope, VerifyError>
  {
    match ChainNotRevoked(crypto, action.chain, evidence)
    case Err(e) => Err(e)
    case Ok(_) => VerifyThreshold(crypto, action, rootKey, trustedRoot, requiredThreshold, policy)
  }

  /** The signature of some block of the chain, the root included. */
  predicate SignsBlock(chain: Token, signature: Signature) {
    signature == chain.root.signature || exists d :: d in chain.delegations && d.signature == signature
  }

  lemma BlockIds(idOf: seq<Byte> -> RevocationId, chain: Token, id: RevocationId)
    ensures id in RevocationIds(idOf, chain) <==>
            exists signature :: SignsBlock(chain, signature) && id == idOf(signature.bytes)
  {
    var ids := RevocationIds(idOf, chain);
    IdsOfBlocks(idOf, chain);
    if id in ids {
      var i :| 0 <= i < |ids| && ids[i] == id;
      assert SignsBlock(chain, SignatureAt(chain, i));
    }
    forall signature | SignsBlock(chain, signature) && id == idOf(signature.bytes) ensures id in ids {
      if signature == chain.root.signature {
        assert ids[0] == id;
      } else {
        var k :| 0 <= k < |chain.delegations| && chain.delegations[k].signature == signature;
        assert ids[k + 1] == id;
      }
    }
  }

  /** The gate, block by block: it is passed exactly when the id of every block's signature is 32
      bytes long and comes with a proof of absence that verifies for its bits; otherwise the
      chain is refused as revoked. */
  lemma GateExact(crypto: Primitives, chain: Token, evidence: RevocationEvidence)
    ensures ChainNotRevoked(crypto, chain, evidence) == Ok(()) <==>
            forall signature {:trigger SignsBlock(chain, signature)} :: SignsBlock(chain, signature) ==>
              var id := crypto.idOf(signature.bytes);
              && |id| == 32 && id in evidence.proofs
              && VerifyNotRevoked(crypto.head, evidence.proofs[id], KeyBits(id), evidence.logKey, 32)
    ensures ChainNotRevoked(crypto, chain, evidence) in {Ok(()), Err(HopRevoked)}
  {
    var ids := RevocationIds(crypto.idOf, chain);
    forall signature | SignsBlock(chain, signature) ensures crypto.idOf(signature.bytes) in ids {
      BlockIds(crypto.idOf, chain, crypto.idOf(signature.bytes));
    }
    forall id | id in ids
      ensures exists signature :: SignsBlock(chain, signature) && id == crypto.idOf(signature.bytes)
    {
      BlockIds(crypto.idOf, chain, id);
    }
  }

  lemma OctetBits(b0: bool, b1: bool, b2: bool, b3: bool, b4: bool, b5: bool, b6: bool, b7: bool)
    ensures var byte := Octet(b0, b1, b2, b3, b4, b5, b6, b7);
            && ByteBit(byte, 0) == b0 && ByteBit(byte, 1) == b1 && ByteBit(byte, 2) == b2 && ByteBit(byte, 3) == b3
            && ByteBit(byte, 4) == b4 && ByteBit(byte, 5) == b5 && ByteBit(byte, 6) == b6 && ByteBit(byte, 7) == b7
  {}

  lemma ByteDigits(value: Byte, j: nat)
    requires j < 8
    ensures ByteBit(ByteOf(value), j) == Digit(value, j)
  {
    OctetBits(Digit(value, 0), Digit(value, 1), Digit(value, 2), Digit(value, 3),
              Digit(value, 4), Digit(value, 5), Digit(value, 6), Digit(value, 7));
  }

  /** The bits of an id are the binary digits of its bytes, the most significant of each first. */
  lemma KeyDigits(id: RevocationId, k: nat, j: nat)
    requires k < |id| && j < 8
    ensures KeyBits(id)[8 * k + j] == Digit(id[k], j)
  {
    ByteDigits(id[k], j);
    BitAt(seq(|id|, i requires 0 <= i < |id| => ByteOf(id[i])), k, j);
  }

  lemma {:induction false} SameDigits(x: nat, y: nat, n: nat)
    requires n <= 8 && x < Pow2(n) && y < Pow2(n) && forall j :: 8 - n <= j < 8 ==> Digit(x, j) == Digit(y, j)
    ensures x == y
  {
    if n > 0 {
      forall j | 9 - n <= j < 8 ensures Digit(x / 2, j) == Digit(y / 2, j) {
        assert Digit(x, j - 1) == Digit(y, j - 1);
      }
      SameDigits(x / 2, y / 2, n - 1);
      assert Digit(x, 7) == Digit(y, 7);
    }
  }

  /** An id's bits determine the id. */
  lemma KeyBitsExact(a: RevocationId, b: RevocationId)
    requires |a| == |b|
    ensures KeyBits(a) == KeyBits(b) <==> a == b
  {
    if KeyBits(a) == KeyBits(b) {
      assert Pow2(8) == 256 by { assert Pow2(2) == 4; Pow2Twice(4, 2); Pow2Twice(8, 4); }
      forall k | 0 <= k < |a| ensures a[k] == b[k] {
        forall j | 0 <= j < 8 ensures Digit(a[k], j) == Digit(b[k], j) {
          KeyDigits(a, k, j);
          KeyDigits(b, k, j);
        }
        SameDigits(a[k], b[k], 8);
      }
    }
  }

  /** A live chain passes: where every block's id is of full width, not revoked, and comes with a
      proof served for it by a genuine publisher, the gate is passed. */
  lemma LiveChainPasses(crypto: Primitives, chain: Token, evidence: RevocationEvidence, signer: Signer<TreeHead>,
                        revoked: set<BitKey>)
    requires Genuine(crypto.head, signer) && signer.publicKey == evidence.logKey
    requires forall signature {:trigger SignsBlock(chain, signature)} :: SignsBlock(chain, signature) ==>
               var id := crypto.idOf(signature.bytes);
               && |id| == KEY_WIDTH && id in evidence.proofs && KeyBits(id) !in revoked
               && ServesVerdict(evidence.proofs[id], KeyBits(id), signer, KEY_WIDTH, revoked)
    ensures ChainNotRevoked(crypto, chain, evidence) == Ok(())
  {
    forall signature | SignsBlock(chain, signature)
      ensures var id := crypto.idOf(signature.bytes);
              VerifyNotRevoked(crypto.head, evidence.proofs[id], KeyBits(id), evidence.logKey, KEY_WIDTH)
    {
      var id := crypto.idOf(signature.bytes);
      var key := KeyBits(id);
      assert VerdictIs(crypto.head, evidence.proofs[id], key, signer.publicKey, KEY_WIDTH, key in revoked);
    }
    GateExact(crypto, chain, evidence);
  }

  /** The gated verifiers answer the gate first, whatever else is wrong, and give the plain
      verifier's verdict after it. */
  lemma GatedExact(crypto: Primitives, action: VerifiableAction, bundle: VerifiableThresholdAction, rootKey: PublicKey,
                   trustedRoot: Digest, requiredThreshold: nat, policy: VerifyPolicy, evidence: RevocationEvidence)
    ensures VerifyWithRevocation(crypto, action, rootKey, trustedRoot, policy, evidence) ==
            if ChainNotRevoked(crypto, action.chain, evidence) == Ok(())
            then Verify(crypto, action, rootKey, trustedRoot, policy) else Err(HopRevoked)
    ensures VerifyThresholdWithRevocation(crypto, bundle, rootKey, trustedRoot, requiredThreshold, policy, evidence) ==
            if ChainNotRevoked(crypto, bundle.chain, evidence) == Ok(())
            then VerifyThreshold(crypto, bundle, rootKey, trustedRoot, requiredThreshold, policy) else Err(HopRevoked)
  {}

  /** MAIN RESULT. Under a log key that signs only heads of one publication history, passing the
      revocation gate means that for the signature of every block some published checkpoint
      exists in whose frozen set, and in every earlier one, its id is absent. */
  lemma GateMeansNotRevoked(crypto: Primitives, chain: Token, evidence: RevocationEvidence, history: seq<Published>,
                            signature: Signature)
      returns (epoch: nat)
    requires GoodHistory(history, KEY_WIDTH) && |history| <= MAX_LEAVES &&
             HonestLogKey(crypto.head, evidence.logKey, history)
    requires ChainNotRevoked(crypto, chain, evidence).Ok?
    requires signature == chain.root.signature || exists d :: d in chain.delegations && d.signature == signature
    ensures var id := crypto.idOf(signature.bytes);
            && epoch < |history| && id in evidence.proofs
            && evidence.proofs[id].checkpoint == history[epoch].checkpoint
            && forall e :: 0 <= e <= epoch ==> KeyBits(id) !in history[e].frozen
  {
    assert SignsBlock(chain, signature);
    GateExact(crypto, chain, evidence);
    var id := crypto.idOf(signature.bytes);
    epoch := LoggedStatusSound(crypto.head, evidence.logKey, history, evidence.proofs[id], KeyBits(id), KEY_WIDTH);
  }

  /** A chain with a block revoked before the first checkpoint never passes either gated verifier,
      whatever evidence is presented. */
  lemma RevokedFromTheStartRefused(crypto: Primitives, action: VerifiableAction, bundle: VerifiableThresholdAction,
                                   rootKey: PublicKey,
                                   trustedRoot: Digest, requiredThreshold: nat, policy: VerifyPolicy,
                                   evidence: RevocationEvidence, history: seq<Published>, signature: Signature)
    requires GoodHistory(history, KEY_WIDTH) && |history| <= MAX_LEAVES &&
             HonestLogKey(crypto.head, evidence.logKey, history)
    requires bundle.chain == action.chain
    requires || signature == action.chain.root.signature
             || exists d :: d in action.chain.delegations && d.signature == signature
    requires |history| > 0 && KeyBits(crypto.idOf(signature.bytes)) in history[0].frozen
    ensures VerifyWithRevocation(crypto, action, rootKey, trustedRoot, policy, evidence) == Err(HopRevoked)
    ensures VerifyThresholdWithRevocation(crypto, bundle, rootKey, trustedRoot, requiredThreshold, policy, evidence) ==
            Err(HopRevoked)
  {
    if ChainNotRevoked(crypto, action.chain, evidence).Ok? {
      var epoch := GateMeansNotRevoked(crypto, action.chain, evidence, history, signature);
    }
  }

  // Purpose

  function PurposeBound(crypto: Primitives, action: VerifiableAction, params: Digest): Result<(), VerifyError> {
    var hops := action.chain.delegations;
    if hops == [] then Err(PurposeMismatch)
    else if crypto.bindAction(hops[|hops| - 1].purpose, params) != action.receipt.actionDigest then Err(PurposeMismatch)
    else Ok(())
  }

  function VerifyWithPurpose(crypto: Primitives, action: VerifiableAction, rootKey: PublicKey, trustedRoot: Digest,
                             policy: VerifyPolicy, params: Digest): Result<Scope, VerifyError>
  {
    match PurposeBound(crypto, action, params)
    case Err(e) => Err(e)
    case Ok(_) => Verify(crypto, action, rootKey, trustedRoot, policy)
  }

  /** The purpose that counts is the last hop's; a chain without hops has none. */
  lemma PurposeExact(crypto: Primitives, action: VerifiableAction, rootKey: PublicKey, trustedRoot: Digest,
                     policy: VerifyPolicy, params: Digest)
    ensures var hops := action.chain.delegations;
            VerifyWithPurpose(crypto, action, rootKey, trustedRoot, policy, params) ==
            if hops != [] && action.receipt.actionDigest == crypto.bindAction(hops[|hops| - 1].purpose, params)
            then Verify(crypto, action, rootKey, trustedRoot, policy) else Err(PurposeMismatch)
  {}

  /** An action witnessed for another purpose or other parameters than the last hop's is refused,
      whatever the purposes of the hops before it. */
  lemma OtherPurposeRefused(crypto: Primitives, action: VerifiableAction, rootKey: PublicKey, trustedRoot: Digest,
                            policy: VerifyPolicy, params: Digest, purpose: string, witnessed: Digest)
    requires CollisionFree(crypto) && action.receipt.actionDigest == crypto.bindAction(purpose, witnessed)
    requires var hops := action.chain.delegations;
             hops == [] || hops[|hops| - 1].purpose != purpose || params != witnessed
    ensures VerifyWithPurpose(crypto, action, rootKey, trustedRoot, policy, params) == Err(PurposeMismatch)
  {}

  ghost predicate CollisionFree(crypto: Primitives) {
    && (forall a, b :: crypto.chainDigest(a) == crypto.chainDigest(b) ==> a == b)
    && (forall p, d, q, e :: crypto.bindAction(p, d) == crypto.bindAction(q, e) ==> p == q && d == e)
  }

  /** One receipt is accepted for one chain, one purpose, one set of parameters and one action
      attested: two acceptances of it can differ only in who attested. */
  lemma ReceiptBindsEverything(crypto: Primitives, a: VerifiableAction, b: VerifiableAction, keyA: PublicKey,
                               keyB: PublicKey,
                               rootA: Digest, rootB: Digest, policyA: VerifyPolicy, policyB: VerifyPolicy,
                               paramsA: Digest, paramsB: Digest)
    requires CollisionFree(crypto) && a.receipt == b.receipt
    requires VerifyWithPurpose(crypto, a, keyA, rootA, policyA, paramsA).Ok?
    requires VerifyWithPurpose(crypto, b, keyB, rootB, policyB, paramsB).Ok?
    ensures a.chain == b.chain && keyA == keyB && paramsA == paramsB
    ensures a.completion.outcomeDigest == b.completion.outcomeDigest
    ensures VerifyWithPurpose(crypto, a, keyA, rootA, policyA, paramsA) ==
            VerifyWithPurpose(crypto, b, keyB, rootB, policyB, paramsB)
  {
    var scopeA, scopeB := Verify(crypto, a, keyA, rootA, policyA).value, Verify(crypto, b, keyB, rootB, policyB).value;
    VerifyAccepts(crypto, a, keyA, rootA, policyA, scopeA);
    VerifyAccepts(crypto, b, keyB, rootB, policyB, scopeB);
    VerifyExact(crypto.chain, a.chain, keyA, scopeA);
    VerifyExact(crypto.chain, b.chain, keyB, scopeB);
  }
}
