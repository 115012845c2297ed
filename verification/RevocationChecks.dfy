/** Revocation checkers, their combination, and the scan over every hop of a chain. */
module RevocationChecks {
  import opened Wrappers
  import opened Signatures
  import opened Chains

  type RevocationId = seq<Byte>

  datatype Status = Live | Revoked(reason: string) | Stale(ttlSeconds: nat)

  datatype RevocationError =
    | RevokedHop(id: RevocationId, reason: string)
    | StaleHop(id: RevocationId, ttlSeconds: nat)
    | LogUnreachable(detail: string)

  type Checker = RevocationId -> Result<Status, RevocationError>

  /** A completed check that came out against the id. */
  predicate Denies(answer: Result<Status, RevocationError>) {
    answer.Ok? && answer.value != Live
  }

  /** Asks each checker in turn; a denial ends the search, a failure to answer is remembered. */
  method AskAll(checkers: seq<Checker>, id: RevocationId) returns (answer: Result<Status, RevocationError>)
    ensures answer == Ok(Live) <==> forall i :: 0 <= i < |checkers| ==> checkers[i](id) == Ok(Live)
    ensures Denies(answer) <==> exists i :: 0 <= i < |checkers| && Denies(checkers[i](id))
    ensures Denies(answer) ==> FirstDenial(checkers, id, answer)
    ensures answer.Err? ==> LastFailure(checkers, |checkers|, id, answer)
  {
    var undeterminable: Option<RevocationError> := None;
    for n := 0 to |checkers|
      invariant forall i :: 0 <= i < n ==> !Denies(checkers[i](id))
      invariant undeterminable.None? ==> forall i :: 0 <= i < n ==> checkers[i](id) == Ok(Live)
      invariant undeterminable.Some? ==> LastFailure(checkers, n, id, Err(undeterminable.value))
    {
      var one := checkers[n](id);
      if one.Ok? {
        if one.value != Live { return one; }
      } else {
        undeterminable := Some(one.error);
      }
    }
    answer := if undeterminable.Some? then Err(undeterminable.value) else Ok(Live);
  }

  /** The answer of the first checker that denies. */
  ghost predicate FirstDenial(checkers: seq<Checker>, id: RevocationId, answer: Result<Status, RevocationError>) {
    exists i :: 0 <= i < |checkers| && checkers[i](id) == answer && forall j :: 0 <= j < i ==> !Denies(checkers[j](id))
  }

  /** The answer of the last of the first `n` checkers that could not answer. */
  ghost predicate LastFailure(checkers: seq<Checker>, n: nat, id: RevocationId, answer: Result<Status, RevocationError>)
    requires n <= |checkers|
  {
    exists i :: 0 <= i < n && checkers[i](id) == answer && forall j :: i < j < n ==> checkers[j](id).Ok?
  }

  /** The ids of all blocks, root first. `idOf` is the domain-separated hash of signature bytes. */
  function RevocationIds(idOf: seq<Byte> -> RevocationId, token: Token): (ids: seq<RevocationId>)
    ensures |ids| == 1 + |token.delegations|
  {
    [idOf(token.root.signature.bytes)] +
    seq(|token.delegations|, i requires 0 <= i < |token.delegations| => idOf(token.delegations[i].signature.bytes))
  }

  /** The verdict on one hop. */
  function HopVerdict(checker: Checker, id: RevocationId): Result<(), RevocationError> {
    match checker(id)
    case Err(e) => Err(e)
    case Ok(Live) => Ok(())
    case Ok(Revoked(reason)) => Err(RevokedHop(id, reason))
    case Ok(Stale(ttl)) => Err(StaleHop(id, ttl))
  }

  /** The signature of block `i`, block 0 being the root. */
  function SignatureAt(token: Token, i: nat): Signature
    requires i <= |token.delegations|
  {
    if i == 0 then token.root.signature else token.delegations[i - 1].signature
  }

  /** Block by block, the ids are those of the blocks' own signatures. */
  lemma IdsOfBlocks(idOf: seq<Byte> -> RevocationId, token: Token)
    ensures var ids := RevocationIds(idOf, token);
            && |ids| == 1 + |token.delegations| && ids[0] == idOf(token.root.signature.bytes)
            && forall i :: 0 <= i < |token.delegations| ==> ids[i + 1] == idOf(token.delegations[i].signature.bytes)
    ensures forall i :: 0 <= i <= |token.delegations| ==>
                          RevocationIds(idOf, token)[i] == idOf(SignatureAt(token, i).bytes)
  {}

  /** What each answer makes of a hop. */
  lemma HopVerdicts(checker: Checker, id: RevocationId, reason: string, ttl: nat, error: RevocationError)
    ensures HopVerdict(checker, id) == Ok(()) <==> checker(id) == Ok(Live)
    ensures checker(id) == Ok(Revoked(reason)) ==> HopVerdict(checker, id) == Err(RevokedHop(id, reason))
    ensures checker(id) == Ok(Stale(ttl)) ==> HopVerdict(checker, id) == Err(StaleHop(id, ttl))
    ensures checker(id) == Err(error) ==> HopVerdict(checker, id) == Err(error)
  {}

  /** Fails closed at the first block, root first, that is not confirmed live, with the verdict on
      the id of that block's own signature. */
  method CheckChain(idOf: seq<Byte> -> RevocationId, token: Token,
                    checker: Checker) returns (r: Result<(), RevocationError>)
    ensures r.Ok? <==>
            && checker(idOf(token.root.signature.bytes)) == Ok(Live)
            && forall d :: d in token.delegations ==> checker(idOf(d.signature.bytes)) == Ok(Live)
    ensures r.Err? ==> exists i: nat :: && i <= |token.delegations|
                                        && HopVerdict(checker, idOf(SignatureAt(token, i).bytes)) == r
                                        && LiveBefore(idOf, token, checker, i)
  {
    var ids := RevocationIds(idOf, token);
    IdsOfBlocks(idOf, token);
    for n := 0 to |ids|
      invariant forall i :: 0 <= i < n ==> checker(ids[i]) == Ok(Live)
    {
      r := HopVerdict(checker, ids[n]);
      if r.Err? {
        RefusedBlock(idOf, token, checker, n);
        return r;
      }
    }
    AllLive(idOf, token, checker);
    r := Ok(());
  }

  /** The blocks before block `i` are confirmed live. */
  ghost predicate LiveBefore(idOf: seq<Byte> -> RevocationId, token: Token, checker: Checker, i: nat)
    requires i <= |token.delegations| + 1
  {
    forall j :: 0 <= j < i ==> checker(idOf(SignatureAt(token, j).bytes)) == Ok(Live)
  }

  lemma RefusedBlock(idOf: seq<Byte> -> RevocationId, token: Token, checker: Checker, i: nat)
    requires i <= |token.delegations| && checker(idOf(SignatureAt(token, i).bytes)) != Ok(Live)
    ensures checker(idOf(token.root.signature.bytes)) != Ok(Live) ||
            exists d :: d in token.delegations && checker(idOf(d.signature.bytes)) != Ok(Live)
  {
    if i > 0 { assert token.delegations[i - 1] in token.delegations; }
  }

  lemma AllLive(idOf: seq<Byte> -> RevocationId, token: Token, checker: Checker)
    requires LiveBefore(idOf, token, checker, |token.delegations| + 1)
    ensures checker(idOf(token.root.signature.bytes)) == Ok(Live)
    ensures forall d :: d in token.delegations ==> checker(idOf(d.signature.bytes)) == Ok(Live)
  {
    assert SignatureAt(token, 0) == token.root.signature;
    forall d | d in token.delegations ensures checker(idOf(d.signature.bytes)) == Ok(Live) {
      var k :| 0 <= k < |token.delegations| && token.delegations[k] == d;
      assert SignatureAt(token, k + 1) == d.signature;
    }
  }
}
