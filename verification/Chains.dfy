/** The delegation chain: issuing, attenuating and verifying a token block by block. A block
    hash is the term of the hashed block, so it determines the block; what a signature covers
    is the tuple that JCS encodes injectively. */
module Chains {
  import opened Wrappers
  import opened Signatures
  import opened Scopes

  datatype Principal = Principal(id: string, displayName: string)

  datatype RootBlock = RootBlock(principal: Principal, principalKey: PublicKey, scope: Scope, signature: Signature)

  datatype BlockHash =
    | RootHash(root: RootBlock)
    | DelegationHash(block: DelegationBlock)
    | OtherBytes(bytes: seq<Byte>)

  datatype DelegationBlock = DelegationBlock(
    from: Principal,
    fromKey: PublicKey,
    to: Principal,
    toKey: PublicKey,
    scope: Scope,
    purpose: string,
    prevBlockHash: BlockHash,
    signature: Signature)

  /** What a chain serializes to. */
  datatype Token = Token(root: RootBlock, delegations: seq<DelegationBlock>)

  datatype ChainPayload =
    | RootPayload(principal: Principal, key: PublicKey, scope: Scope)
    | DelegationPayload(from: Principal, fromKey: PublicKey, to: Principal, toKey: PublicKey, scope: Scope,
                        purpose: string, prevBlockHash: BlockHash)

  function RootSigningPayload(root: RootBlock): ChainPayload {
    RootPayload(root.principal, root.principalKey, root.scope)
  }

  function DelegationSigningPayload(block: DelegationBlock): ChainPayload {
    DelegationPayload(block.from, block.fromKey, block.to, block.toKey, block.scope, block.purpose, block.prevBlockHash)
  }

  // The state after block i, block 0 being the root: what hop i + 1 continues from.

  function ScopeAt(token: Token, i: nat): Scope
    requires i <= |token.delegations|
  {
    if i == 0 then token.root.scope else token.delegations[i - 1].scope
  }

  function KeyAt(token: Token, i: nat): PublicKey
    requires i <= |token.delegations|
  {
    if i == 0 then token.root.principalKey else token.delegations[i - 1].toKey
  }

  function PrincipalAt(token: Token, i: nat): Principal
    requires i <= |token.delegations|
  {
    if i == 0 then token.root.principal else token.delegations[i - 1].to
  }

  function HashAt(token: Token, i: nat): BlockHash
    requires i <= |token.delegations|
  {
    if i == 0 then RootHash(token.root) else DelegationHash(token.delegations[i - 1])
  }

  function TailScope(token: Token): Scope {
    ScopeAt(token, |token.delegations|)
  }

  /** The key of the agent that executes the final action. */
  function ExecutorKey(token: Token): PublicKey {
    KeyAt(token, |token.delegations|)
  }

  predicate IsWhitespace(c: char) {
    var n := c as int;
    || 0x9 <= n <= 0xD || n == 0x20 || n == 0x85 || n == 0xA0 || n == 0x1680 || 0x2000 <= n <= 0x200A
    || n == 0x2028 || n == 0x2029 || n == 0x202F || n == 0x205F || n == 0x3000
  }

  /** Trimming leaves nothing. */
  predicate Blank(text: string) {
    forall c :: c in text ==> IsWhitespace(c)
  }

  // Verification

  /** A signature check: an error of the schemes and a plain refusal are told apart. */
  function SignatureVerdict(schemes: Schemes<ChainPayload>, payload: ChainPayload, signature: Signature,
                            key: PublicKey, block: nat):
      Result<(), ChainError>
  {
    match VerifySignature(schemes, payload, signature, key)
    case Err(_) => Err(Crypto)
    case Ok(valid) => if valid then Ok(()) else Err(SignatureInvalid(block))
  }

  function RootVerdict(schemes: Schemes<ChainPayload>, root: RootBlock, rootKey: PublicKey): Result<(), ChainError> {
    if root.principalKey != rootKey then Err(RootKeyMismatch)
    else SignatureVerdict(schemes, RootSigningPayload(root), root.signature, root.principalKey, 0)
  }

  /** The checks on block number `i`, in order, against what the block before it handed on. */
  function LinkVerdict(schemes: Schemes<ChainPayload>, block: DelegationBlock, prevScope: Scope, signerKey: PublicKey,
                       from: Principal, prevHash: BlockHash, i: nat): Result<(), ChainError>
  {
    if block.fromKey != signerKey then Err(WrongSigner)
    else if block.from != from then Err(PrincipalMismatch)
    else if block.prevBlockHash != prevHash then Err(BrokenHashLink)
    else if Blank(block.purpose) then Err(MissingPurpose)
    else if prevScope.maxDepth == 0 then Err(DepthExceeded)
    else if NarrowingOf(block.scope, prevScope).Err? then NarrowingOf(block.scope, prevScope)
    else if block.scope.maxDepth >= prevScope.maxDepth then Err(ScopeWidened)
    else SignatureVerdict(schemes, DelegationSigningPayload(block), block.signature, block.fromKey, i)
  }

  function BlockVerdict(schemes: Schemes<ChainPayload>, token: Token, i: nat): Result<(), ChainError>
    requires 0 < i <= |token.delegations|
  {
    LinkVerdict(schemes, token.delegations[i - 1], ScopeAt(token, i - 1), KeyAt(token, i - 1),
                PrincipalAt(token, i - 1), HashAt(token, i - 1), i)
  }

  /** The verdict on the first `n` delegation blocks: the first violated property wins. */
  function VerdictUpTo(schemes: Schemes<ChainPayload>, token: Token, rootKey: PublicKey,
                       n: nat): Result<(), ChainError>
    requires n <= |token.delegations|
    decreases n, 0
  {
    if n == 0 then RootVerdict(schemes, token.root, rootKey) else VerdictAfter(schemes, token, rootKey, n)
  }

  /** Block `n` counts only after the blocks before it. */
  function VerdictAfter(schemes: Schemes<ChainPayload>, token: Token, rootKey: PublicKey,
                        n: nat): Result<(), ChainError>
    requires 0 < n <= |token.delegations|
    decreases n - 1, 1
  {
    match VerdictUpTo(schemes, token, rootKey, n - 1)
    case Err(e) => Err(e)
    case Ok(_) => BlockVerdict(schemes, token, n)
  }

  /** `Chain::verify`. */
  function ChainVerdict(schemes: Schemes<ChainPayload>, token: Token, rootKey: PublicKey): Result<Scope, ChainError> {
    match VerdictUpTo(schemes, token, rootKey, |token.delegations|)
    case Err(e) => Err(e)
    case Ok(_) => Ok(TailScope(token))
  }

  /** What the loop carries from one block to the next. */
  datatype Carried = Carried(prevScope: Scope, expectedSignerKey: PublicKey, expectedFrom: Principal,
                             prevHash: BlockHash)

  function CarriedAt(token: Token, i: nat): Carried
    requires i <= |token.delegations|
  {
    Carried(ScopeAt(token, i), KeyAt(token, i), PrincipalAt(token, i), HashAt(token, i))
  }

  /** One turn of the loop: block `i + 1` against what is carried from block `i`, and what the
      next turn carries on from. */
  method CheckBlock(schemes: Schemes<ChainPayload>, token: Token, ghost rootKey: PublicKey, i: nat, before: Carried)
      returns (r: Result<(), ChainError>, after: Carried)
    requires i < |token.delegations| && before == CarriedAt(token, i)
    requires VerdictUpTo(schemes, token, rootKey, i) == Ok(())
    ensures r == VerdictUpTo(schemes, token, rootKey, i + 1)
    ensures after == CarriedAt(token, i + 1)
  {
    var block := token.delegations[i];
    r := LinkVerdict(schemes, block, before.prevScope, before.expectedSignerKey, before.expectedFrom, before.prevHash,
                     i + 1);
    assert r == BlockVerdict(schemes, token, i + 1) == VerdictAfter(schemes, token, rootKey, i + 1);
    after := Carried(block.scope, block.toKey, block.to, DelegationHash(block));
  }

  /** The root first, then the loop over the blocks, carrying the scope, key, principal and hash of
      the last one. */
  method VerifyChain(schemes: Schemes<ChainPayload>, token: Token, rootKey: PublicKey)
      returns (r: Result<Scope, ChainError>)
    ensures r == ChainVerdict(schemes, token, rootKey)
  {
    var n := |token.delegations|;
    var verdict := RootVerdict(schemes, token.root, rootKey);
    if verdict.Err? {
      StoppedAt(schemes, token, rootKey, 0, verdict.error);
      return Err(verdict.error);
    }
    var carried := Carried(token.root.scope, token.root.principalKey, token.root.principal, RootHash(token.root));
    for i := 0 to n
      invariant carried == CarriedAt(token, i)
      invariant VerdictUpTo(schemes, token, rootKey, i) == Ok(())
    {
      verdict, carried := CheckBlock(schemes, token, rootKey, i, carried);
      if verdict.Err? {
        StoppedAt(schemes, token, rootKey, i + 1, verdict.error);
        return Err(verdict.error);
      }
    }
    r := Ok(carried.prevScope);
  }

  /** A refusal on the way is the verdict on the whole chain. */
  lemma {:induction false} StoppedAt(schemes: Schemes<ChainPayload>, token: Token, rootKey: PublicKey, i: nat,
                                     fault: ChainError)
    requires i <= |token.delegations| && VerdictUpTo(schemes, token, rootKey, i) == Err(fault)
    ensures ChainVerdict(schemes, token, rootKey) == Err(fault)
  {
    VerdictStops(schemes, token, rootKey, i, |token.delegations|);
  }

  /** The verdict on a longer stretch is the first failure of a shorter one. */
  lemma {:induction false} VerdictStops(schemes: Schemes<ChainPayload>, token: Token, rootKey: PublicKey, i: nat,
                                        n: nat)
    requires i <= n <= |token.delegations|
    ensures VerdictUpTo(schemes, token, rootKey, i).Err? ==>
            VerdictUpTo(schemes, token, rootKey, n) == VerdictUpTo(schemes, token, rootKey, i)
    decreases n
  {
    if i < n { VerdictStops(schemes, token, rootKey, i, n - 1); }
  }

  /** A refusal at block i after good blocks is the verdict on the whole chain. */
  lemma RefusedAt(schemes: Schemes<ChainPayload>, token: Token, rootKey: PublicKey, i: nat)
    requires i <= |token.delegations| && (i > 0 ==> VerdictUpTo(schemes, token, rootKey, i - 1) == Ok(()))
    ensures var verdict := if i == 0 then RootVerdict(schemes, token.root, rootKey)
                           else BlockVerdict(schemes, token, i);
            if verdict.Err? then ChainVerdict(schemes, token, rootKey) == Err(verdict.error)
            else VerdictUpTo(schemes, token, rootKey, i) == Ok(())
  {
    if i > 0 { assert VerdictUpTo(schemes, token, rootKey, i) == VerdictAfter(schemes, token, rootKey, i); }
    VerdictStops(schemes, token, rootKey, i, |token.delegations|);
  }

  /** The block names its predecessor by key, principal and hash, states a purpose, hands on
      strictly less depth and a narrower scope, and is signed by the key it was handed. */
  ghost predicate GoodBlock(schemes: Schemes<ChainPayload>, token: Token, i: nat)
    requires 0 < i <= |token.delegations|
  {
    var block := token.delegations[i - 1];
    && block.fromKey == KeyAt(token, i - 1)
    && block.from == PrincipalAt(token, i - 1)
    && block.prevBlockHash == HashAt(token, i - 1)
    && !Blank(block.purpose)
    && Narrows(block.scope, ScopeAt(token, i - 1))
    && block.scope.maxDepth < ScopeAt(token, i - 1).maxDepth
    && VerifySignature(schemes, DelegationSigningPayload(block), block.signature, block.fromKey) == Ok(true)
  }

  ghost predicate GoodChain(schemes: Schemes<ChainPayload>, token: Token, rootKey: PublicKey) {
    && token.root.principalKey == rootKey
    && VerifySignature(schemes, RootSigningPayload(token.root), token.root.signature, rootKey) == Ok(true)
    && GoodBlocks(schemes, token, |token.delegations|)
  }

  ghost predicate GoodBlocks(schemes: Schemes<ChainPayload>, token: Token, n: nat)
    requires n <= |token.delegations|
  {
    forall i :: 0 < i <= n ==> GoodBlock(schemes, token, i)
  }

  lemma BlockVerdictExact(schemes: Schemes<ChainPayload>, token: Token, i: nat)
    requires 0 < i <= |token.delegations|
    ensures BlockVerdict(schemes, token, i) == Ok(()) <==> GoodBlock(schemes, token, i)
  {}

  lemma GoodBlocksStep(schemes: Schemes<ChainPayload>, token: Token, n: nat)
    requires 0 < n <= |token.delegations|
    ensures GoodBlocks(schemes, token, n) <==> GoodBlocks(schemes, token, n - 1) && GoodBlock(schemes, token, n)
  {}

  lemma {:induction false} VerdictUpToExact(schemes: Schemes<ChainPayload>, token: Token, rootKey: PublicKey, n: nat)
    requires n <= |token.delegations|
    ensures VerdictUpTo(schemes, token, rootKey, n) == Ok(()) <==>
            RootVerdict(schemes, token.root, rootKey) == Ok(()) && GoodBlocks(schemes, token, n)
  {
    if n > 0 {
      VerdictUpToExact(schemes, token, rootKey, n - 1);
      BlockVerdictExact(schemes, token, n);
      GoodBlocksStep(schemes, token, n);
    }
  }

  /** Verification succeeds exactly on the chains whose every block is good, with the tail's scope. */
  lemma VerifyExact(schemes: Schemes<ChainPayload>, token: Token, rootKey: PublicKey, scope: Scope)
    ensures ChainVerdict(schemes, token, rootKey) == Ok(scope) <==>
            GoodChain(schemes, token, rootKey) && scope == TailScope(token)
  {
    VerdictUpToExact(schemes, token, rootKey, |token.delegations|);
  }

  /** Block i is the first that is not good, and this is what is wrong with it. */
  ghost predicate FirstFault(schemes: Schemes<ChainPayload>, token: Token, rootKey: PublicKey, i: nat,
                             fault: ChainError)
    requires i <= |token.delegations|
  {
    if i == 0 then RootVerdict(schemes, token.root, rootKey) == Err(fault)
    else
      && RootVerdict(schemes, token.root, rootKey) == Ok(()) && GoodBlocks(schemes, token, i - 1)
      && BlockVerdict(schemes, token, i) == Err(fault)
  }

  /** A refusal names what is wrong with the first block that is not good. */
  lemma RefusalNamesFirstFault(schemes: Schemes<ChainPayload>, token: Token, rootKey: PublicKey,
                               fault: ChainError)
    ensures ChainVerdict(schemes, token, rootKey) == Err(fault) <==>
            exists i: nat :: i <= |token.delegations| && FirstFault(schemes, token, rootKey, i, fault)
  {
    if ChainVerdict(schemes, token, rootKey) == Err(fault) {
      var i := FaultPoint(schemes, token, rootKey, |token.delegations|);
    }
    forall i: nat | i <= |token.delegations| && FirstFault(schemes, token, rootKey, i, fault)
      ensures ChainVerdict(schemes, token, rootKey) == Err(fault)
    {
      FaultIsVerdict(schemes, token, rootKey, i, fault);
    }
  }

  lemma FaultIsVerdict(schemes: Schemes<ChainPayload>, token: Token, rootKey: PublicKey, i: nat, fault: ChainError)
    requires i <= |token.delegations| && FirstFault(schemes, token, rootKey, i, fault)
    ensures ChainVerdict(schemes, token, rootKey) == Err(fault)
  {
    if i > 0 { VerdictUpToExact(schemes, token, rootKey, i - 1); }
    RefusedAt(schemes, token, rootKey, i);
  }

  lemma {:induction false} FaultPoint(schemes: Schemes<ChainPayload>, token: Token, rootKey: PublicKey,
                                      n: nat) returns (i: nat)
    requires n <= |token.delegations| && VerdictUpTo(schemes, token, rootKey, n).Err?
    ensures i <= n && FirstFault(schemes, token, rootKey, i, VerdictUpTo(schemes, token, rootKey, n).error)
  {
    if n == 0 {
      i := 0;
    } else if VerdictUpTo(schemes, token, rootKey, n - 1).Err? {
      i := FaultPoint(schemes, token, rootKey, n - 1);
    } else {
      i := n;
      VerdictUpToExact(schemes, token, rootKey, n - 1);
    }
  }

  // The verdict on the token's own fields

  /** Whether a block may follow a principal, key, scope and hash: what each field must say. */
  ghost predicate Follows(schemes: Schemes<ChainPayload>, principal: Principal, key: PublicKey, scope: Scope,
                          hash: BlockHash, block: DelegationBlock) {
    && block.from == principal && block.fromKey == key && block.prevBlockHash == hash
    && (exists c :: c in block.purpose && !IsWhitespace(c))
    && Narrows(block.scope, scope) && block.scope.maxDepth < scope.maxDepth
    && VerifySignature(schemes,
                       DelegationPayload(block.from, block.fromKey, block.to, block.toKey, block.scope, block.purpose,
                                         block.prevBlockHash),
                       block.signature, block.fromKey) == Ok(true)
  }

  /** A verifying chain, field by field: the root signs for itself under the trusted key, the first
      block follows the root, and every other block follows what the block before it hands on. */
  ghost predicate LinkedChain(schemes: Schemes<ChainPayload>, token: Token, rootKey: PublicKey) {
    var root, blocks := token.root, token.delegations;
    && root.principalKey == rootKey
    && VerifySignature(schemes, RootPayload(root.principal, root.principalKey, root.scope), root.signature, rootKey)
       == Ok(true)
    && (blocks != [] ==> Follows(schemes, root.principal, root.principalKey, root.scope, RootHash(root), blocks[0]))
    && forall i {:trigger blocks[i]} :: 0 < i < |blocks| ==> FollowsBlock(schemes, blocks[i - 1], blocks[i])
  }

  ghost predicate FollowsBlock(schemes: Schemes<ChainPayload>, prev: DelegationBlock, block: DelegationBlock) {
    Follows(schemes, prev.to, prev.toKey, prev.scope, DelegationHash(prev), block)
  }

  lemma GoodBlockOnFields(schemes: Schemes<ChainPayload>, token: Token, i: nat)
    requires 0 < i <= |token.delegations|
    ensures GoodBlock(schemes, token, i) <==>
            if i == 1 then Follows(schemes, token.root.principal, token.root.principalKey, token.root.scope,
                                   RootHash(token.root), token.delegations[0])
            else FollowsBlock(schemes, token.delegations[i - 2], token.delegations[i - 1])
  {}

  /** MAIN RESULT. A chain is accepted exactly when its fields link up, and the scope returned is
      that of the last block, or of the root where there is none. */
  lemma VerifyOnFields(schemes: Schemes<ChainPayload>, token: Token, rootKey: PublicKey, scope: Scope)
    ensures ChainVerdict(schemes, token, rootKey) == Ok(scope) <==>
            && LinkedChain(schemes, token, rootKey)
            && scope == if token.delegations == [] then token.root.scope
                        else token.delegations[|token.delegations| - 1].scope
  {
    VerifyExact(schemes, token, rootKey, scope);
    if GoodChain(schemes, token, rootKey) { FieldsOfGood(schemes, token); }
    if LinkedChain(schemes, token, rootKey) {
      forall i | 0 < i <= |token.delegations| ensures GoodBlock(schemes, token, i) {
        GoodBlockOnFields(schemes, token, i);
      }
    }
  }

  lemma FieldsOfGood(schemes: Schemes<ChainPayload>, token: Token)
    requires GoodBlocks(schemes, token, |token.delegations|)
    ensures var root, blocks := token.root, token.delegations;
            && (blocks != [] ==>
                  Follows(schemes, root.principal, root.principalKey, root.scope, RootHash(root), blocks[0]))
            && forall i {:trigger blocks[i]} :: 0 < i < |blocks| ==> FollowsBlock(schemes, blocks[i - 1], blocks[i])
  {
    var blocks := token.delegations;
    if blocks != [] {
      assert GoodBlock(schemes, token, 1);
      GoodBlockOnFields(schemes, token, 1);
    }
    forall i | 0 < i < |blocks| ensures FollowsBlock(schemes, blocks[i - 1], blocks[i]) {
      assert GoodBlock(schemes, token, i + 1);
      GoodBlockOnFields(schemes, token, i + 1);
    }
  }

  /** In an accepted chain each block is from the principal and the key that the block before it,
      or the root, named, and carries its hash. */
  lemma PrincipalsLink(schemes: Schemes<ChainPayload>, token: Token, rootKey: PublicKey, i: nat)
    requires ChainVerdict(schemes, token, rootKey).Ok? && i < |token.delegations|
    ensures var block := token.delegations[i];
            if i == 0 then
              && block.from == token.root.principal && block.fromKey == token.root.principalKey == rootKey
              && block.prevBlockHash == RootHash(token.root) && block.scope.maxDepth < token.root.scope.maxDepth
            else
              var prev := token.delegations[i - 1];
              && block.from == prev.to && block.fromKey == prev.toKey
              && block.prevBlockHash == DelegationHash(prev) && block.scope.maxDepth < prev.scope.maxDepth
  {
    VerifyOnFields(schemes, token, rootKey, ChainVerdict(schemes, token, rootKey).value);
  }

  /** Which refusal names which fault of a block, in the order of the checks. */
  lemma LinkFaults(schemes: Schemes<ChainPayload>, block: DelegationBlock, scope: Scope, key: PublicKey,
                   principal: Principal, hash: BlockHash, i: nat)
    ensures var verdict := LinkVerdict(schemes, block, scope, key, principal, hash, i);
            var linked := block.fromKey == key && block.from == principal && block.prevBlockHash == hash;
            var stated := exists c :: c in block.purpose && !IsWhitespace(c);
            var narrowed := NarrowingOf(block.scope, scope);
            var payload := DelegationPayload(block.from, block.fromKey, block.to, block.toKey, block.scope,
                                             block.purpose, block.prevBlockHash);
            var checked := VerifySignature(schemes, payload, block.signature, block.fromKey);
            && (block.fromKey != key ==> verdict == Err(WrongSigner))
            && (block.fromKey == key && block.from != principal ==> verdict == Err(PrincipalMismatch))
            && (block.fromKey == key && block.from == principal && block.prevBlockHash != hash ==>
                  verdict == Err(BrokenHashLink))
            && (linked && !stated ==> verdict == Err(MissingPurpose))
            && (linked && stated && scope.maxDepth == 0 ==> verdict == Err(DepthExceeded))
            && (linked && stated && scope.maxDepth > 0 && narrowed.Err? ==> verdict == narrowed)
            && (linked && stated && scope.maxDepth > 0 && narrowed.Ok? && block.scope.maxDepth >= scope.maxDepth ==>
                  verdict == Err(ScopeWidened))
            && (linked && stated && narrowed.Ok? && block.scope.maxDepth < scope.maxDepth ==>
                  verdict == if checked == Ok(true) then Ok(())
                             else if checked == Ok(false) then Err(SignatureInvalid(i)) else Err(Crypto))
  {}

  /** A refused chain has an accepted front, and the next block's own fault is the one named; only
      a chain whose root is at fault is refused for its root. */
  lemma RefusalOnFields(schemes: Schemes<ChainPayload>, token: Token, rootKey: PublicKey, i: nat)
    requires i < |token.delegations|
    requires ChainVerdict(schemes, Token(token.root, token.delegations[..i]), rootKey).Ok?
    ensures var root, block := token.root, token.delegations[i];
            var fault := if i == 0 then LinkVerdict(schemes, block, root.scope, root.principalKey, root.principal,
                                                    RootHash(root), 1)
                         else var prev := token.delegations[i - 1];
                              LinkVerdict(schemes, block, prev.scope, prev.toKey, prev.to, DelegationHash(prev), i + 1);
            fault.Err? ==> ChainVerdict(schemes, token, rootKey) == Err(fault.error)
  {
    var front := Token(token.root, token.delegations[..i]);
    VerdictOfPrefix(schemes, front, token, rootKey, i);
    RefusedAt(schemes, token, rootKey, i + 1);
  }

  lemma {:induction false} VerdictOfPrefix(schemes: Schemes<ChainPayload>, front: Token, token: Token,
                                           rootKey: PublicKey, n: nat)
    requires front.root == token.root && front.delegations <= token.delegations && n <= |front.delegations|
    ensures VerdictUpTo(schemes, front, rootKey, n) == VerdictUpTo(schemes, token, rootKey, n)
  {
    if n > 0 {
      VerdictOfPrefix(schemes, front, token, rootKey, n - 1);
      assert BlockVerdict(schemes, front, n) == BlockVerdict(schemes, token, n);
      assert VerdictUpTo(schemes, front, rootKey, n) == VerdictAfter(schemes, front, rootKey, n);
      assert VerdictUpTo(schemes, token, rootKey, n) == VerdictAfter(schemes, token, rootKey, n);
    }
  }

  lemma RootFaults(schemes: Schemes<ChainPayload>, token: Token, rootKey: PublicKey)
    ensures var root := token.root;
            var checked := VerifySignature(schemes, RootPayload(root.principal, root.principalKey, root.scope),
                                           root.signature, root.principalKey);
            && (root.principalKey != rootKey ==> ChainVerdict(schemes, token, rootKey) == Err(RootKeyMismatch))
            && (root.principalKey == rootKey && checked == Ok(false) ==>
                  ChainVerdict(schemes, token, rootKey) == Err(SignatureInvalid(0)))
            && (root.principalKey == rootKey && checked.Err? ==> ChainVerdict(schemes, token, rootKey) == Err(Crypto))
  {
    RefusedAt(schemes, token, rootKey, 0);
  }

  /** The signature of a block covers every field but itself. */
  lemma PayloadsCoverAll(a: DelegationBlock, b: DelegationBlock, rootA: RootBlock, rootB: RootBlock)
    ensures DelegationSigningPayload(a) == DelegationSigningPayload(b) <==> a.(signature := b.signature) == b
    ensures RootSigningPayload(rootA) == RootSigningPayload(rootB) <==> rootA.(signature := rootB.signature) == rootB
  {}

  /** The executor is whom the last block names, or the root principal where there is none. */
  lemma ExecutorOnFields(token: Token)
    ensures ExecutorKey(token) ==
            if token.delegations == [] then token.root.principalKey
            else token.delegations[|token.delegations| - 1].toKey
  {}

  /** What counts as no purpose: nothing, and blanks of any kind; a letter or a digit is one. */
  lemma BlankPurposes(purpose: string, c: char)
    ensures Blank("") && Blank(" ") && Blank("\t") && Blank("\n") && Blank("\r") && Blank("\U{3000}")
    ensures ('a' <= c <= 'z' || 'A' <= c <= 'Z' || '0' <= c <= '9') && c in purpose ==> !Blank(purpose)
  {}

  // Attenuation over the whole chain

  /** Every later scope narrows every earlier one and has lost at least one level of depth per hop. */
  lemma {:induction false} ScopesNarrow(schemes: Schemes<ChainPayload>, token: Token, rootKey: PublicKey, i: nat,
                                        j: nat)
    requires GoodChain(schemes, token, rootKey) && i <= j <= |token.delegations|
    ensures Narrows(ScopeAt(token, j), ScopeAt(token, i))
    ensures ScopeAt(token, j).maxDepth + (j - i) <= ScopeAt(token, i).maxDepth
    decreases j
  {
    if i == j {
      NarrowsReflexive(ScopeAt(token, i));
    } else {
      assert GoodBlock(schemes, token, j);
      ScopesNarrow(schemes, token, rootKey, i, j - 1);
      NarrowsTransitive(ScopeAt(token, j), ScopeAt(token, j - 1), ScopeAt(token, i));
    }
  }

  /** MAIN RESULT. A verified chain hands its executor nothing the root did not allow: no use of
      an action, no spending, no later time, and no more hops than the root's depth. */
  lemma VerifiedWithinRoot(schemes: Schemes<ChainPayload>, token: Token, rootKey: PublicKey, scope: Scope,
                           action: string, amount: U64, resource: string, spent: nat, currency: Option<string>,
                           time: nat)
    requires ChainVerdict(schemes, token, rootKey) == Ok(scope)
    ensures ScopePermits(scope, action, amount, resource) ==> ScopePermits(token.root.scope, action, amount, resource)
    ensures WithinLimits(scope, spent, currency, time) ==> WithinLimits(token.root.scope, spent, currency, time)
    ensures |token.delegations| + scope.maxDepth <= token.root.scope.maxDepth
  {
    VerifyExact(schemes, token, rootKey, scope);
    ScopesNarrow(schemes, token, rootKey, 0, |token.delegations|);
    NarrowsMeaning(scope, token.root.scope, action, amount, resource, spent, currency, time);
  }

  // History binding

  lemma HashLinked(schemes: Schemes<ChainPayload>, token: Token, rootKey: PublicKey, i: nat)
    requires GoodChain(schemes, token, rootKey) && 0 < i <= |token.delegations|
    ensures token.delegations[i - 1].prevBlockHash == HashAt(token, i - 1)
  {
    assert GoodBlock(schemes, token, i);
  }

  /** Equal hashes at two positions of linked chains force equal histories up to there. */
  lemma {:induction false} HashBindsHistory(schemes: Schemes<ChainPayload>, a: Token, b: Token, keyA: PublicKey,
                                            keyB: PublicKey, i: nat, j: nat)
    requires GoodChain(schemes, a, keyA) && GoodChain(schemes, b, keyB)
    requires i <= |a.delegations| && j <= |b.delegations| && HashAt(a, i) == HashAt(b, j)
    ensures i == j && a.root == b.root && a.delegations[..i] == b.delegations[..j]
  {
    if i > 0 {
      HashLinked(schemes, a, keyA, i);
      HashLinked(schemes, b, keyB, j);
      HashBindsHistory(schemes, a, b, keyA, keyB, i - 1, j - 1);
      OneBlockMore(a.delegations, b.delegations, i);
    }
  }

  lemma OneBlockMore(a: seq<DelegationBlock>, b: seq<DelegationBlock>, i: nat)
    requires 0 < i <= |a| && i <= |b| && a[..i - 1] == b[..i - 1] && a[i - 1] == b[i - 1]
    ensures a[..i] == b[..i]
  {
    assert a[..i] == a[..i - 1] + [a[i - 1]] && b[..i] == b[..i - 1] + [b[i - 1]];
  }

  /** MAIN RESULT. The last block of a verified chain determines the whole chain. */
  lemma LastBlockBindsChain(schemes: Schemes<ChainPayload>, a: Token, b: Token, keyA: PublicKey,
                            keyB: PublicKey)
    requires ChainVerdict(schemes, a, keyA).Ok? && ChainVerdict(schemes, b, keyB).Ok?
    requires a.delegations != [] && b.delegations != []
    requires a.delegations[|a.delegations| - 1] == b.delegations[|b.delegations| - 1]
    ensures a == b && keyA == keyB
  {
    VerifyExact(schemes, a, keyA, TailScope(a));
    VerifyExact(schemes, b, keyB, TailScope(b));
    HashBindsHistory(schemes, a, b, keyA, keyB, |a.delegations|, |b.delegations|);
    assert a.delegations[..|a.delegations|] == a.delegations && b.delegations[..|b.delegations|] == b.delegations;
  }

  // Building

  function Issued(signer: Signer<ChainPayload>, principal: Principal, scope: Scope): Token
    requires signer.sign(RootPayload(principal, signer.publicKey, scope)).Ok?
  {
    Token(RootBlock(principal, signer.publicKey, scope,
                    signer.sign(RootPayload(principal, signer.publicKey, scope)).value), [])
  }

  /** `from_root`: a signed root block is adopted when its own signature holds. */
  function FromRoot(schemes: Schemes<ChainPayload>, root: RootBlock): Result<Token, ChainError> {
    match SignatureVerdict(schemes, RootSigningPayload(root), root.signature, root.principalKey, 0)
    case Err(e) => Err(e)
    case Ok(_) => Ok(Token(root, []))
  }

  /** Adopting a root is verifying the chain it starts, under the key it names. */
  lemma FromRootExact(schemes: Schemes<ChainPayload>, root: RootBlock)
    ensures FromRoot(schemes, root) ==
            match ChainVerdict(schemes, Token(root, []), root.principalKey)
            case Err(e) => Err(e)
            case Ok(_) => Ok(Token(root, []))
  {
    assert VerdictUpTo(schemes, Token(root, []), root.principalKey, 0) == RootVerdict(schemes, root, root.principalKey);
  }

  /** The hop a caller asks for. */
  datatype Hop = Hop(signer: Signer<ChainPayload>, to: Principal, toKey: PublicKey, scope: Scope, purpose: string)

  /** What `attenuate` leaves behind: the first violated rule, or the chain grown by one block. */
  function Attenuated(token: Token, hop: Hop): Result<Token, ChainError> {
    var n := |token.delegations|;
    var tail := TailScope(token);
    if Blank(hop.purpose) then Err(MissingPurpose)
    else if hop.signer.publicKey != KeyAt(token, n) then Err(WrongSigner)
    else if tail.maxDepth == 0 then Err(DepthExceeded)
    else if NarrowingOf(hop.scope, tail).Err? then Err(NarrowingOf(hop.scope, tail).error)
    else if hop.scope.maxDepth >= tail.maxDepth then Err(ScopeWidened)
    else
      var payload := DelegationPayload(PrincipalAt(token, n), KeyAt(token, n), hop.to, hop.toKey, hop.scope,
                                       hop.purpose, HashAt(token, n));
      match hop.signer.sign(payload)
      case Err(_) => Err(Crypto)
      case Ok(signature) =>
        Ok(token.(delegations := token.delegations +
          [DelegationBlock(PrincipalAt(token, n), KeyAt(token, n), hop.to, hop.toKey, hop.scope, hop.purpose,
                           HashAt(token, n), signature)]))
  }

  /** What a successful `attenuate` appends, and which refusal names what, on the fields. */
  lemma AttenuatedOnFields(token: Token, hop: Hop)
    ensures var n := |token.delegations|;
            var (scope, key, from, hash) :=
              if n == 0 then (token.root.scope, token.root.principalKey, token.root.principal, RootHash(token.root))
              else (token.delegations[n - 1].scope, token.delegations[n - 1].toKey, token.delegations[n - 1].to,
                    DelegationHash(token.delegations[n - 1]));
            var stated := exists c :: c in hop.purpose && !IsWhitespace(c);
            var narrowed, signs := NarrowingOf(hop.scope, scope), hop.signer.publicKey == key;
            var payload := DelegationPayload(from, key, hop.to, hop.toKey, hop.scope, hop.purpose, hash);
            var signed := hop.signer.sign(payload);
            && (!stated ==> Attenuated(token, hop) == Err(MissingPurpose))
            && (stated && !signs ==> Attenuated(token, hop) == Err(WrongSigner))
            && (stated && signs && scope.maxDepth == 0 ==> Attenuated(token, hop) == Err(DepthExceeded))
            && (stated && signs && scope.maxDepth > 0 && narrowed.Err? ==>
                  Attenuated(token, hop) == Err(narrowed.error))
            && (stated && signs && scope.maxDepth > 0 && narrowed.Ok? && hop.scope.maxDepth >= scope.maxDepth ==>
                  Attenuated(token, hop) == Err(ScopeWidened))
            && (stated && signs && narrowed.Ok? && hop.scope.maxDepth < scope.maxDepth ==>
                  Attenuated(token, hop) ==
                  if signed.Err? then Err(Crypto)
                  else
                    var block := DelegationBlock(from, key, hop.to, hop.toKey, hop.scope, hop.purpose, hash,
                                                 signed.value);
                    Ok(Token(token.root, token.delegations + [block])))
  {}

  /** Two hops in a row: the second comes from whom the first went to. */
  lemma TwoHops(token: Token, first: Hop, second: Hop)
    requires Attenuated(token, first).Ok? && Attenuated(Attenuated(token, first).value, second).Ok?
    ensures var grown, n := Attenuated(Attenuated(token, first).value, second).value, |token.delegations|;
            && |grown.delegations| == n + 2 && grown.delegations[..n] == token.delegations
            && grown.delegations[n].to == first.to && grown.delegations[n].toKey == first.toKey
            && grown.delegations[n + 1].from == first.to && grown.delegations[n + 1].fromKey == first.toKey
            && grown.delegations[n + 1].prevBlockHash == DelegationHash(grown.delegations[n])
  {
    AttenuatedOnFields(token, first);
    AttenuatedOnFields(Attenuated(token, first).value, second);
  }

  /** An issued chain is its signed root. */
  lemma IssuedOnFields(signer: Signer<ChainPayload>, principal: Principal, scope: Scope)
    requires signer.sign(RootPayload(principal, signer.publicKey, scope)).Ok?
    ensures var token := Issued(signer, principal, scope);
            && token.root.principal == principal && token.root.principalKey == signer.publicKey
            && token.root.scope == scope && token.delegations == []
            && signer.sign(RootPayload(principal, signer.publicKey, scope)) == Ok(token.root.signature)
  {}

  /** What a prefix of a chain says about its blocks, the whole chain says too. */
  lemma GoodBlockOfPrefix(schemes: Schemes<ChainPayload>, token: Token, front: Token, i: nat)
    requires front.root == token.root && front.delegations <= token.delegations && 0 < i <= |front.delegations|
    ensures GoodBlock(schemes, front, i) <==> GoodBlock(schemes, token, i)
  {}

  /** A chain grown by one block is good exactly when the shorter chain is and the new block is. */
  lemma GoodChainGrows(schemes: Schemes<ChainPayload>, front: Token, token: Token, rootKey: PublicKey)
    requires front.root == token.root && |token.delegations| == |front.delegations| + 1
    requires front.delegations <= token.delegations
    ensures GoodChain(schemes, token, rootKey) <==>
            GoodChain(schemes, front, rootKey) && GoodBlock(schemes, token, |token.delegations|)
  {
    forall i | 0 < i <= |front.delegations| ensures GoodBlock(schemes, front, i) <==> GoodBlock(schemes, token, i) {
      GoodBlockOfPrefix(schemes, token, front, i);
    }
  }

  /** Attenuating a chain that verifies, with a genuine signer, gives one that verifies, to the
      scope just handed on. */
  lemma AttenuateVerifies(schemes: Schemes<ChainPayload>, token: Token, rootKey: PublicKey, hop: Hop)
    requires GoodChain(schemes, token, rootKey) && Genuine(schemes, hop.signer)
    requires Attenuated(token, hop).Ok?
    ensures GoodChain(schemes, Attenuated(token, hop).value, rootKey)
    ensures TailScope(Attenuated(token, hop).value) == hop.scope
    ensures ExecutorKey(Attenuated(token, hop).value) == hop.toKey
  {
    GoodChainGrows(schemes, token, Attenuated(token, hop).value, rootKey);
  }

  /** Conversely every chain that verifies is what `attenuate` makes of the chain one block
      shorter, for a signer that produces the signature of the last block: `attenuate` refuses
      nothing that `verify` would take. */
  lemma AttenuateComplete(schemes: Schemes<ChainPayload>, front: Token, token: Token, rootKey: PublicKey, hop: Hop)
    requires GoodChain(schemes, token, rootKey) && front.root == token.root
    requires |token.delegations| == |front.delegations| + 1 && front.delegations <= token.delegations
    requires var block := token.delegations[|front.delegations|];
             && hop.signer.publicKey == block.fromKey && hop.to == block.to && hop.toKey == block.toKey
             && hop.scope == block.scope && hop.purpose == block.purpose
             && hop.signer.sign(DelegationSigningPayload(block)) == Ok(block.signature)
    ensures GoodChain(schemes, front, rootKey) && Attenuated(front, hop) == Ok(token)
  {
    GoodChainGrows(schemes, front, token, rootKey);
    var block := token.delegations[|front.delegations|];
    assert GoodBlock(schemes, token, |token.delegations|);
    assert token.delegations == front.delegations + [block];
  }

  /** A list of `attenuate` calls: one that is refused leaves the chain as it was. */
  function AttenuatedAll(token: Token, hops: seq<Hop>): Token {
    if hops == [] then token
    else
      var before, hop := AttenuatedAll(token, hops[..|hops| - 1]), hops[|hops| - 1];
      match Attenuated(before, hop)
      case Err(_) => before
      case Ok(after) => after
  }

  /** MAIN RESULT. Whatever is attempted on an issued chain, it verifies under the issuer's key
      and returns the scope of its tail. */
  lemma {:induction false} BuiltChainsVerify(schemes: Schemes<ChainPayload>, signer: Signer<ChainPayload>,
                                             principal: Principal, scope: Scope, hops: seq<Hop>)
    requires Genuine(schemes, signer) && forall hop :: hop in hops ==> Genuine(schemes, hop.signer)
    requires signer.sign(RootPayload(principal, signer.publicKey, scope)).Ok?
    ensures var token := AttenuatedAll(Issued(signer, principal, scope), hops);
            ChainVerdict(schemes, token, signer.publicKey) == Ok(TailScope(token))
    decreases |hops|
  {
    var issued := Issued(signer, principal, scope);
    if hops == [] {
      VerifyExact(schemes, issued, signer.publicKey, TailScope(issued));
    } else {
      var front, hop := hops[..|hops| - 1], hops[|hops| - 1];
      BuiltChainsVerify(schemes, signer, principal, scope, front);
      var before := AttenuatedAll(issued, front);
      VerifyExact(schemes, before, signer.publicKey, TailScope(before));
      if Attenuated(before, hop).Ok? {
        AttenuateVerifies(schemes, before, signer.publicKey, hop);
        VerifyExact(schemes, Attenuated(before, hop).value, signer.publicKey, hop.scope);
      }
    }
  }

  class Chain {
    const root: RootBlock
    var delegations: seq<DelegationBlock>

    function AsToken(): Token
      reads this
    {
      Token(root, delegations)
    }

    constructor Issue(signer: Signer<ChainPayload>, principal: Principal, scope: Scope)
      requires signer.sign(RootPayload(principal, signer.publicKey, scope)).Ok?
      ensures AsToken() == Issued(signer, principal, scope)
    {
      var payload := RootPayload(principal, signer.publicKey, scope);
      root := RootBlock(principal, signer.publicKey, scope, signer.sign(payload).value);
      delegations := [];
    }

    /** Appends one hop, or refuses and changes nothing. */
    method Attenuate(hop: Hop) returns (r: Result<(), ChainError>)
      modifies this`delegations
      ensures match Attenuated(old(AsToken()), hop)
              case Err(e) => r == Err(e) && delegations == old(delegations)
              case Ok(token) => r == Ok(()) && AsToken() == token
    {
      if Blank(hop.purpose) { return Err(MissingPurpose); }
      var token := AsToken();
      var n := |delegations|;
      var tail, tailKey := ScopeAt(token, n), KeyAt(token, n);
      var tailPrincipal, prevHash := PrincipalAt(token, n), HashAt(token, n);
      if hop.signer.publicKey != tailKey { return Err(WrongSigner); }
      if tail.maxDepth == 0 { return Err(DepthExceeded); }
      var narrowing := NarrowingOf(hop.scope, tail);
      if narrowing.Err? { return Err(narrowing.error); }
      if hop.scope.maxDepth >= tail.maxDepth { return Err(ScopeWidened); }
      var payload := DelegationPayload(tailPrincipal, tailKey, hop.to, hop.toKey, hop.scope, hop.purpose, prevHash);
      var signature := hop.signer.sign(payload);
      if signature.Err? { return Err(Crypto); }
      delegations := delegations +
        [DelegationBlock(tailPrincipal, tailKey, hop.to, hop.toKey, hop.scope, hop.purpose, prevHash, signature.value)];
      r := Ok(());
    }
  }
}
