/** Completion attestations: one signed by a party other than the executor, and the k-of-n
    bundle that counts such parties. */
module Attestations {
  import opened Wrappers
  import opened Digests
  import opened Inclusion
  import opened Signatures
  import opened Chains

  datatype AttesterRole = CounterSigned | ThirdParty

  datatype CompletionAttestation = CompletionAttestation(
    chainDigest: Digest,
    requestedActionDigest: Digest,
    outcomeDigest: Digest,
    witnessedRoot: Digest,
    inclusion: InclusionProof,
    attester: Principal,
    attesterKey: PublicKey,
    role: AttesterRole,
    signature: Signature)

  /** What the signature covers: everything but itself. */
  datatype AttestationPayload = AttestationPayload(
    chainDigest: Digest,
    requested: Digest,
    outcome: Digest,
    witnessedRoot: Digest,
    inclusion: InclusionProof,
    attester: Principal,
    attesterKey: PublicKey,
    role: AttesterRole)

  datatype AttestationError = NotIndependent | InvalidSignature | CryptoFailure

  function SigningPayload(a: CompletionAttestation): AttestationPayload {
    AttestationPayload(a.chainDigest, a.requestedActionDigest, a.outcomeDigest, a.witnessedRoot, a.inclusion,
                       a.attester, a.attesterKey, a.role)
  }

  /** `CompletionAttestation::verify`. */
  function CompletionVerdict(schemes: Schemes<AttestationPayload>, a: CompletionAttestation, executorKey: PublicKey):
      Result<(), AttestationError>
  {
    if a.attesterKey == executorKey then Err(NotIndependent)
    else
      match VerifySignature(schemes, SigningPayload(a), a.signature, a.attesterKey)
      case Err(_) => Err(CryptoFailure)
      case Ok(valid) => if valid then Ok(()) else Err(InvalidSignature)
  }

  predicate Vouches(schemes: Schemes<AttestationPayload>, a: CompletionAttestation, executorKey: PublicKey) {
    CompletionVerdict(schemes, a, executorKey).Ok?
  }

  /** `attest_as`: signs with the attester's key whatever the caller observed. */
  function AttestAs(role: AttesterRole, signer: Signer<AttestationPayload>, attester: Principal, chainDigest: Digest,
                    requested: Digest, outcome: Digest, witnessedRoot: Digest,
                    inclusion: InclusionProof): CompletionAttestation
    requires signer.sign(AttestationPayload(chainDigest, requested, outcome, witnessedRoot, inclusion, attester,
                                            signer.publicKey, role)).Ok?
  {
    var payload := AttestationPayload(chainDigest, requested, outcome, witnessedRoot, inclusion, attester,
                                      signer.publicKey, role);
    CompletionAttestation(chainDigest, requested, outcome, witnessedRoot, inclusion, attester, signer.publicKey, role,
                          signer.sign(payload).value)
  }

  /** A genuine signer's attestation vouches for itself before everyone but the signer. */
  lemma AttestVouches(schemes: Schemes<AttestationPayload>, role: AttesterRole, signer: Signer<AttestationPayload>,
                      attester: Principal, chainDigest: Digest, requested: Digest, outcome: Digest,
                      witnessedRoot: Digest, inclusion: InclusionProof, executorKey: PublicKey)
    requires Genuine(schemes, signer)
    requires signer.sign(AttestationPayload(chainDigest, requested, outcome, witnessedRoot, inclusion, attester,
                                            signer.publicKey, role)).Ok?
    ensures Vouches(schemes,
                    AttestAs(role, signer, attester, chainDigest, requested, outcome, witnessedRoot, inclusion),
                    executorKey)
            <==> signer.publicKey != executorKey
  {
    var payload := AttestationPayload(chainDigest, requested, outcome, witnessedRoot, inclusion, attester,
                                      signer.publicKey, role);
    assert VerifySignature(schemes, payload, signer.sign(payload).value, signer.publicKey) == Ok(true);
  }

  datatype ThresholdAttestation = ThresholdAttestation(attestations: seq<CompletionAttestation>, threshold: nat)

  datatype ThresholdError =
    | NotEnoughIndependentAttestations(have: nat, need: nat)
    | DuplicateAttester
    | InconsistentBinding

  datatype Binding = Binding(chainDigest: Digest, requested: Digest, outcome: Digest, witnessedRoot: Digest)

  function BindingOf(a: CompletionAttestation): Binding {
    Binding(a.chainDigest, a.requestedActionDigest, a.outcomeDigest, a.witnessedRoot)
  }

  predicate SameBinding(members: seq<CompletionAttestation>) {
    forall a :: a in members ==> BindingOf(a) == BindingOf(members[0])
  }

  predicate DistinctKeys(members: seq<CompletionAttestation>) {
    forall i, j :: 0 <= i < j < |members| ==> members[i].attesterKey != members[j].attesterKey
  }

  /** How many members verify on their own. */
  function CountVouching(schemes: Schemes<AttestationPayload>, members: seq<CompletionAttestation>,
                         executorKey: PublicKey): nat {
    if members == [] then 0
    else
      CountVouching(schemes, members[..|members| - 1], executorKey) +
      (if Vouches(schemes, members[|members| - 1], executorKey) then 1 else 0)
  }

  /** The parties that vouch: the keys of the members that verify. */
  function VouchingKeys(schemes: Schemes<AttestationPayload>, members: seq<CompletionAttestation>,
                        executorKey: PublicKey): set<PublicKey> {
    set a | a in members && Vouches(schemes, a, executorKey) :: a.attesterKey
  }

  /** With distinct keys the members counted are as many parties, and the executor is none of them. */
  lemma {:induction false} CountIsParties(schemes: Schemes<AttestationPayload>, members: seq<CompletionAttestation>,
                                          executorKey: PublicKey)
    requires DistinctKeys(members)
    ensures CountVouching(schemes, members, executorKey) == |VouchingKeys(schemes, members, executorKey)|
    ensures executorKey !in VouchingKeys(schemes, members, executorKey)
    decreases |members|
  {
    if members != [] {
      var front, last := members[..|members| - 1], members[|members| - 1];
      CountIsParties(schemes, front, executorKey);
      assert members == front + [last];
      var before, after := VouchingKeys(schemes, front, executorKey), VouchingKeys(schemes, members, executorKey);
      if Vouches(schemes, last, executorKey) {
        assert last.attesterKey !in before;
        assert after == before + {last.attesterKey};
      } else {
        assert after == before;
      }
    }
  }

  /** `ThresholdAttestation::verify`: one binding, then distinct keys, then enough parties. */
  function ThresholdVerdict(schemes: Schemes<AttestationPayload>, bundle: ThresholdAttestation, executorKey: PublicKey):
      Result<(), ThresholdError>
  {
    var have := CountVouching(schemes, bundle.attestations, executorKey);
    if !SameBinding(bundle.attestations) then Err(InconsistentBinding)
    else if !DistinctKeys(bundle.attestations) then Err(DuplicateAttester)
    else if have < bundle.threshold then Err(NotEnoughIndependentAttestations(have, bundle.threshold))
    else Ok(())
  }

  /** Two attestations are about one action. */
  predicate SameAction(a: CompletionAttestation, b: CompletionAttestation) {
    && a.chainDigest == b.chainDigest && a.requestedActionDigest == b.requestedActionDigest
    && a.outcomeDigest == b.outcomeDigest && a.witnessedRoot == b.witnessedRoot
  }

  /** A party, other than the executor, that validly signed some member. */
  ghost predicate SignedMember(schemes: Schemes<AttestationPayload>, members: seq<CompletionAttestation>,
                               executorKey: PublicKey, key: PublicKey) {
    && key != executorKey
    && exists a :: a in members && a.attesterKey == key && (
         VerifySignature(schemes,
                         AttestationPayload(a.chainDigest, a.requestedActionDigest, a.outcomeDigest, a.witnessedRoot,
                                            a.inclusion, a.attester, a.attesterKey, a.role),
                         a.signature, key) == Ok(true))
  }

  lemma VouchingKeysExact(schemes: Schemes<AttestationPayload>, members: seq<CompletionAttestation>,
                          executorKey: PublicKey, key: PublicKey)
    ensures key in VouchingKeys(schemes, members, executorKey) <==> SignedMember(schemes, members, executorKey, key)
  {}

  /** MAIN RESULT. A bundle holds exactly when all members are pairwise about one action, no two
      share a key, and at least the declared number of parties other than the executor validly
      signed. Of several faults the first in this order is named, the last one with the count. */
  lemma BundleExact(schemes: Schemes<AttestationPayload>, bundle: ThresholdAttestation, executorKey: PublicKey,
                    parties: set<PublicKey>)
    requires forall key :: key in parties <==> SignedMember(schemes, bundle.attestations, executorKey, key)
    ensures var members, verdict := bundle.attestations, ThresholdVerdict(schemes, bundle, executorKey);
            var oneAction := forall a, b :: a in members && b in members ==> SameAction(a, b);
            var distinct := forall i, j :: 0 <= i < j < |members| ==> members[i].attesterKey != members[j].attesterKey;
            && (verdict == Ok(()) <==> oneAction && distinct && bundle.threshold <= |parties|)
            && (verdict == Err(InconsistentBinding) <==> !oneAction)
            && (verdict == Err(DuplicateAttester) <==> oneAction && !distinct)
            && (oneAction && distinct && |parties| < bundle.threshold ==>
                  verdict == Err(NotEnoughIndependentAttestations(|parties|, bundle.threshold)))
  {
    var members := bundle.attestations;
    BindingExact(members);
    if DistinctKeys(members) {
      CountIsParties(schemes, members, executorKey);
      forall key ensures key in VouchingKeys(schemes, members, executorKey) <==> key in parties {
        VouchingKeysExact(schemes, members, executorKey, key);
      }
      assert VouchingKeys(schemes, members, executorKey) == parties;
    }
  }

  lemma BindingExact(members: seq<CompletionAttestation>)
    ensures SameBinding(members) <==> forall a, b :: a in members && b in members ==> SameAction(a, b)
  {
    if members != [] { assert members[0] in members; }
    forall a, b | SameBinding(members) && a in members && b in members ensures SameAction(a, b) {
      assert BindingOf(a) == BindingOf(b);
    }
    if forall a, b :: a in members && b in members ==> SameAction(a, b) {
      forall a | a in members ensures BindingOf(a) == BindingOf(members[0]) {
        assert SameAction(a, members[0]);
      }
    }
  }

  /** What refuses a single attestation: the executor's own key first, then the schemes' errors and
      refusals over all signed fields. */
  lemma CompletionFaults(schemes: Schemes<AttestationPayload>, a: CompletionAttestation, executorKey: PublicKey)
    ensures var payload := AttestationPayload(a.chainDigest, a.requestedActionDigest, a.outcomeDigest, a.witnessedRoot,
                                              a.inclusion, a.attester, a.attesterKey, a.role);
            var checked := VerifySignature(schemes, payload, a.signature, a.attesterKey);
            CompletionVerdict(schemes, a, executorKey) ==
            if a.attesterKey == executorKey then Err(NotIndependent)
            else if checked == Ok(true) then Ok(()) else if checked == Ok(false) then Err(InvalidSignature)
            else Err(CryptoFailure)
  {}

  /** What an attester signs is what it was given, under its own key. */
  lemma AttestedFields(role: AttesterRole, signer: Signer<AttestationPayload>, attester: Principal, chainDigest: Digest,
                       requested: Digest, outcome: Digest, witnessedRoot: Digest, inclusion: InclusionProof)
    requires signer.sign(AttestationPayload(chainDigest, requested, outcome, witnessedRoot, inclusion, attester,
                                            signer.publicKey, role)).Ok?
    ensures var a := AttestAs(role, signer, attester, chainDigest, requested, outcome, witnessedRoot, inclusion);
            && a.chainDigest == chainDigest && a.requestedActionDigest == requested && a.outcomeDigest == outcome
            && a.witnessedRoot == witnessedRoot && a.inclusion == inclusion && a.attester == attester
            && a.attesterKey == signer.publicKey && a.role == role
  {}

  /** The loop that fills the set of keys seen so far. */
  method VerifyThresholdBundle(schemes: Schemes<AttestationPayload>, bundle: ThresholdAttestation,
                               executorKey: PublicKey)
      returns (r: Result<(), ThresholdError>)
    ensures r == ThresholdVerdict(schemes, bundle, executorKey)
  {
    var members := bundle.attestations;
    if members != [] {
      var binding := BindingOf(members[0]);
      if exists a :: a in members && BindingOf(a) != binding { return Err(InconsistentBinding); }
    }
    var seen: set<PublicKey> := {};
    for i := 0 to |members|
      invariant forall key :: key in seen <==> exists j :: 0 <= j < i && members[j].attesterKey == key
      invariant DistinctKeys(members[..i])
    {
      if members[i].attesterKey in seen {
        return Err(DuplicateAttester);
      }
      seen := seen + {members[i].attesterKey};
    }
    assert members[..|members|] == members;
    var have := CountVouching(schemes, members, executorKey);
    if have < bundle.threshold { return Err(NotEnoughIndependentAttestations(have, bundle.threshold)); }
    r := Ok(());
  }
}
