/** The signed revocation snapshot: a publisher whose epoch counts the revoked ids, and a client
    that refuses a snapshot with a bad signature, a rolled-back epoch or too old a date. What is
    signed are bytes over the sorted ids; they are proved to stand for the snapshot one to one,
    and from there on the signed message is the snapshot itself. */
module Snapshots {
  import opened Wrappers
  import opened MerkleTree
  import opened Signatures
  import opened RevocationChecks

  datatype Snapshot = Snapshot(epoch: nat, publishedAt: nat, revoked: set<RevocationId>)

  datatype SignedSnapshot = SignedSnapshot(body: Snapshot, signature: Signature)

  // The signed bytes

  /** Big-endian bytes of a machine word. */
  function WordBytes(n: nat): (bytes: seq<Byte>)
    requires n < WORD
    ensures |bytes| == 8
  {
    BigEndian(n / WORD32) + BigEndian(n % WORD32)
  }

  lemma WordBytesInjective(m: nat, n: nat)
    requires m < WORD && n < WORD
    ensures WordBytes(m) == WordBytes(n) <==> m == n
  {
    if WordBytes(m) == WordBytes(n) {
      assert WordBytes(m)[..4] == BigEndian(m / WORD32) && WordBytes(m)[4..] == BigEndian(m % WORD32);
      assert WordBytes(n)[..4] == BigEndian(n / WORD32) && WordBytes(n)[4..] == BigEndian(n % WORD32);
      BigEndianRoundTrip(m / WORD32);
      BigEndianRoundTrip(n / WORD32);
      BigEndianRoundTrip(m % WORD32);
      BigEndianRoundTrip(n % WORD32);
    }
  }

  /** What the set digest is fed: each id behind its length. */
  function SetBytes(ids: seq<RevocationId>): seq<Byte>
    requires forall id :: id in ids ==> |id| < WORD
  {
    if ids == [] then [] else WordBytes(|ids[0]|) + ids[0] + SetBytes(ids[1..])
  }

  /** A word's bytes are its value, the most significant first, and the set's are each id behind
      its length. */
  lemma LayoutOfBytes(n: nat, ids: seq<RevocationId>, id: RevocationId)
    requires n < WORD && |id| < WORD && forall i :: i in ids ==> |i| < WORD
    ensures var b := WordBytes(n);
            n == WORD32 * FromBigEndian(b[0], b[1], b[2], b[3]) + FromBigEndian(b[4], b[5], b[6], b[7])
    ensures SetBytes([id] + ids) == WordBytes(|id|) + id + SetBytes(ids)
  {
    BigEndianRoundTrip(n / WORD32);
    BigEndianRoundTrip(n % WORD32);
    assert ([id] + ids)[1..] == ids;
  }

  lemma {:induction false} SetBytesInjective(a: seq<RevocationId>, b: seq<RevocationId>)
    requires (forall id :: id in a ==> |id| < WORD) && (forall id :: id in b ==> |id| < WORD)
    ensures SetBytes(a) == SetBytes(b) <==> a == b
  {
    if SetBytes(a) == SetBytes(b) && a != [] && b != [] {
      FirstIdRead(a);
      FirstIdRead(b);
      WordBytesInjective(|a[0]|, |b[0]|);
      SetBytesInjective(a[1..], b[1..]);
      assert a == [a[0]] + a[1..] && b == [b[0]] + b[1..];
    }
  }

  lemma FirstIdRead(ids: seq<RevocationId>)
    requires (forall id :: id in ids ==> |id| < WORD) && ids != []
    ensures |SetBytes(ids)| >= 8 + |ids[0]|
    ensures SetBytes(ids)[..8] == WordBytes(|ids[0]|) && SetBytes(ids)[8..8 + |ids[0]|] == ids[0]
    ensures SetBytes(ids)[8 + |ids[0]|..] == SetBytes(ids[1..])
  {}

  /** The byte order of the ids: the first difference decides, and a prefix comes first. */
  predicate IdLess(a: RevocationId, b: RevocationId) {
    b != [] && (a == [] || a[0] < b[0] || (a[0] == b[0] && IdLess(a[1..], b[1..])))
  }

  lemma {:induction false} IdLessAsymmetric(a: RevocationId, b: RevocationId)
    ensures !(IdLess(a, b) && IdLess(b, a))
  {
    if a != [] && b != [] { IdLessAsymmetric(a[1..], b[1..]); }
  }

  /** The ids agree up to `q`, and there `a` ends or holds the smaller byte. */
  predicate FirstApart(a: RevocationId, b: RevocationId, q: nat) {
    && q <= |a| && q < |b| && (forall k :: 0 <= k < q ==> a[k] == b[k])
    && (q == |a| || a[q] < b[q])
  }

  /** The order is that of dictionaries. */
  lemma {:induction false} IdLessExact(a: RevocationId, b: RevocationId)
    ensures IdLess(a, b) <==> exists q: nat :: FirstApart(a, b, q)
  {
    if a != [] && b != [] && a[0] == b[0] {
      IdLessExact(a[1..], b[1..]);
      forall q: nat | FirstApart(a[1..], b[1..], q) ensures FirstApart(a, b, q + 1) {
        assert forall k :: 0 < k < q + 1 ==> a[k] == a[1..][k - 1] && b[k] == b[1..][k - 1];
      }
      forall q: nat | FirstApart(a, b, q) ensures q > 0 && FirstApart(a[1..], b[1..], q - 1) {}
    } else {
      assert IdLess(a, b) ==> FirstApart(a, b, 0);
      forall q: nat | FirstApart(a, b, q) ensures IdLess(a, b) {}
    }
  }

  ghost predicate Ascending(ids: seq<RevocationId>) {
    forall i, j {:trigger IdLess(ids[i], ids[j])} :: 0 <= i < j < |ids| ==> IdLess(ids[i], ids[j])
  }

  /** The ids of a set, in ascending order. */
  ghost predicate Lists(ids: seq<RevocationId>, revoked: set<RevocationId>) {
    Ascending(ids) && forall id :: id in ids <==> id in revoked
  }

  /** A set is listed in one way only, whatever order its ids came in. */
  lemma {:induction false} ListingUnique(a: seq<RevocationId>, b: seq<RevocationId>, revoked: set<RevocationId>)
    requires Lists(a, revoked) && Lists(b, revoked)
    ensures a == b
  {
    EmptyListing(a, revoked);
    EmptyListing(b, revoked);
    if revoked != {} {
      SameFirst(a, b, revoked);
      RestListed(a, revoked);
      RestListed(b, revoked);
      ListingUnique(a[1..], b[1..], revoked - {a[0]});
      assert a == [a[0]] + a[1..] && b == [b[0]] + b[1..];
    }
  }

  lemma EmptyListing(ids: seq<RevocationId>, revoked: set<RevocationId>)
    requires Lists(ids, revoked)
    ensures ids == [] <==> revoked == {}
  {
    if ids != [] { assert ids[0] in revoked; }
  }

  lemma SameFirst(a: seq<RevocationId>, b: seq<RevocationId>, revoked: set<RevocationId>)
    requires Lists(a, revoked) && Lists(b, revoked) && a != [] && b != []
    ensures a[0] == b[0]
  {
    assert a[0] in b && b[0] in a;
    var i, j :| 0 <= i < |b| && b[i] == a[0] && 0 <= j < |a| && a[j] == b[0];
    if i > 0 && j > 0 {
      assert IdLess(b[0], b[i]) && IdLess(a[0], a[j]);
      IdLessAsymmetric(a[0], b[0]);
    }
  }

  lemma RestListed(ids: seq<RevocationId>, revoked: set<RevocationId>)
    requires Lists(ids, revoked) && ids != []
    ensures Lists(ids[1..], revoked - {ids[0]})
  {
    var rest := ids[1..];
    forall i, j | 0 <= i < j < |rest| ensures IdLess(rest[i], rest[j]) {
      assert IdLess(ids[i + 1], ids[j + 1]);
    }
    forall id ensures id in rest <==> id in revoked - {ids[0]} {
      if id in rest {
        var i :| 0 <= i < |rest| && rest[i] == id;
        assert IdLess(ids[0], ids[i + 1]);
        IdLessAsymmetric(ids[0], ids[i + 1]);
      }
      assert ids == [ids[0]] + rest;
    }
  }

  /** `snapshot_signing_bytes` behind its constant domain: epoch, time, and the set digest, which
      is the term of what it was fed. */
  datatype SigningBytes = SigningBytes(front: seq<Byte>, digestOf: seq<Byte>)

  function SnapshotBytes(epoch: nat, publishedAt: nat, ids: seq<RevocationId>): SigningBytes
    requires epoch < WORD && publishedAt < WORD && forall id :: id in ids ==> |id| < WORD
  {
    SigningBytes(WordBytes(epoch) + WordBytes(publishedAt), SetBytes(ids))
  }

  /** The epoch comes first, the time second, the ids last. */
  lemma FrontLayout(epoch: nat, publishedAt: nat, ids: seq<RevocationId>)
    requires epoch < WORD && publishedAt < WORD && forall id :: id in ids ==> |id| < WORD
    ensures var bytes := SnapshotBytes(epoch, publishedAt, ids);
            && bytes.front[..8] == WordBytes(epoch) && bytes.front[8..] == WordBytes(publishedAt)
            && bytes.digestOf == SetBytes(ids)
  {}

  /** MAIN RESULT. The signed bytes stand for the snapshot: two snapshots, their ids listed in order,
      are signed over the same bytes exactly when they are equal. */
  lemma SnapshotBytesExact(a: Snapshot, b: Snapshot, idsA: seq<RevocationId>, idsB: seq<RevocationId>)
    requires a.epoch < WORD && a.publishedAt < WORD && b.epoch < WORD && b.publishedAt < WORD
    requires Lists(idsA, a.revoked) && Lists(idsB, b.revoked)
    requires forall id :: id in a.revoked + b.revoked ==> |id| < WORD
    ensures SnapshotBytes(a.epoch, a.publishedAt, idsA) == SnapshotBytes(b.epoch, b.publishedAt, idsB) <==> a == b
  {
    if a == b {
      ListingUnique(idsA, idsB, a.revoked);
    }
    if SnapshotBytes(a.epoch, a.publishedAt, idsA) == SnapshotBytes(b.epoch, b.publishedAt, idsB) {
      var frontA := WordBytes(a.epoch) + WordBytes(a.publishedAt);
      var frontB := WordBytes(b.epoch) + WordBytes(b.publishedAt);
      assert frontA[..8] == WordBytes(a.epoch) && frontA[8..] == WordBytes(a.publishedAt);
      assert frontB[..8] == WordBytes(b.epoch) && frontB[8..] == WordBytes(b.publishedAt);
      WordBytesInjective(a.epoch, b.epoch);
      WordBytesInjective(a.publishedAt, b.publishedAt);
      SetBytesInjective(idsA, idsB);
      assert a.revoked == b.revoked;
    }
  }

  predicate VerifySnapshot(schemes: Schemes<Snapshot>, snapshot: SignedSnapshot, operatorKey: PublicKey) {
    VerifySignature(schemes, snapshot.body, snapshot.signature, operatorKey) == Ok(true)
  }

  // The publisher

  /** The sets a publisher has gone through, by epoch: each holds one id more than the last. */
  ghost predicate GoodEpochs(history: seq<set<RevocationId>>) {
    && history != []
    && (forall n :: 0 <= n < |history| ==> |history[n]| == n)
    && (forall n {:trigger Grows(history, n)} :: 0 <= n < |history| - 1 ==> Grows(history, n))
  }

  ghost predicate Grows(history: seq<set<RevocationId>>, n: nat)
    requires n + 1 < |history|
  {
    history[n] <= history[n + 1]
  }

  lemma {:induction false} EpochsGrow(history: seq<set<RevocationId>>, i: nat, j: nat)
    requires GoodEpochs(history) && i <= j < |history|
    ensures history[i] <= history[j]
    decreases j
  {
    if i < j {
      EpochsGrow(history, i, j - 1);
      assert Grows(history, j - 1);
    }
  }

  class RevocationLog {
    var revoked: set<RevocationId>
    var reasons: map<RevocationId, string>
    var epoch: nat
    ghost var history: seq<set<RevocationId>>

    ghost predicate Valid()
      reads this
    {
      && GoodEpochs(history)
      && epoch == |history| - 1 && revoked == history[epoch]
      && reasons.Keys == revoked
    }

    constructor ()
      ensures Valid() && history == [{}]
    {
      revoked, reasons, epoch := {}, map[], 0;
      history := [{}];
    }

    /** Only a genuine change of the set raises the epoch. */
    method Revoke(id: RevocationId, reason: string)
      requires Valid()
      modifies this
      ensures Valid()
      ensures revoked == old(revoked) + {id} && reasons == old(reasons)[id := reason]
      ensures history == if id in old(revoked) then old(history) else old(history) + [old(revoked) + {id}]
    {
      if id !in revoked {
        revoked := revoked + {id};
        epoch := epoch + 1;
        ghost var before := history;
        history := history + [revoked];
        forall n | 0 <= n < |history| - 1 ensures Grows(history, n) {
          if n < |before| - 1 { assert Grows(before, n); }
        }
      }
      reasons := reasons[id := reason];
    }

    /** The current set, signed with the current epoch and time. */
    method CurrentSnapshot(signer: Signer<Snapshot>, now: nat) returns (snapshot: SignedSnapshot)
      requires Valid() && forall body :: signer.sign(body).Ok?
      ensures snapshot.body == Snapshot(|history| - 1, now, history[|history| - 1])
      ensures signer.sign(snapshot.body) == Ok(snapshot.signature)
    {
      var body := Snapshot(epoch, now, revoked);
      snapshot := SignedSnapshot(body, signer.sign(body).value);
    }
  }

  // The client

  datatype CheckerSettings = CheckerSettings(schemes: Schemes<Snapshot>, operatorKey: PublicKey, maxStaleness: nat)

  /** One lookup: what the source handed over, the time, and the id asked about. */
  datatype Query = Query(fetched: Result<SignedSnapshot, string>, now: nat, id: RevocationId)

  function SaturatingSub(a: nat, b: nat): nat {
    if a > b then a - b else 0
  }

  /** Whether a lookup gets as far as the set. */
  predicate Trusted(settings: CheckerSettings, lastSeen: nat, query: Query) {
    && query.fetched.Ok?
    && VerifySnapshot(settings.schemes, query.fetched.value, settings.operatorKey)
    && lastSeen <= query.fetched.value.body.epoch
    && SaturatingSub(query.now, query.fetched.value.body.publishedAt) <= settings.maxStaleness
  }

  class SnapshotChecker {
    const settings: CheckerSettings
    var lastSeenEpoch: nat

    constructor (settings: CheckerSettings)
      ensures this.settings == settings && lastSeenEpoch == 0
    {
      this.settings := settings;
      lastSeenEpoch := 0;
    }

    /** One lookup of `is_revoked`: an answer for a snapshot that was fetched, is signed by the
        operator, rolls no epoch back and is fresh enough; it is then the snapshot's own, and its
        epoch is remembered. */
    method IsRevoked(query: Query) returns (answer: Result<Status, RevocationError>)
      modifies this
      ensures answer.Ok? <==>
              && query.fetched.Ok?
              && var snapshot := query.fetched.value;
              && VerifySignature(settings.schemes, snapshot.body, snapshot.signature, settings.operatorKey) == Ok(true)
              && old(lastSeenEpoch) <= snapshot.body.epoch
              && query.now <= snapshot.body.publishedAt + settings.maxStaleness
      ensures answer.Ok? ==> (answer.value.Revoked? <==> query.id in query.fetched.value.body.revoked)
      ensures answer.Ok? ==> (answer.value.Live? <==> query.id !in query.fetched.value.body.revoked)
      ensures answer.Ok? ==> answer.value == StatusOf(query)
      ensures answer.Err? ==> answer.error.LogUnreachable?
      ensures lastSeenEpoch == if answer.Ok? then query.fetched.value.body.epoch else old(lastSeenEpoch)
      ensures lastSeenEpoch == SeenAfter(settings, old(lastSeenEpoch), query)
    {
      if query.fetched.Err? { return Err(LogUnreachable(query.fetched.error)); }
      var snapshot := query.fetched.value;
      if !VerifySnapshot(settings.schemes, snapshot, settings.operatorKey) {
        return Err(LogUnreachable("revocation snapshot signature invalid"));
      }
      if snapshot.body.epoch < lastSeenEpoch {
        return Err(LogUnreachable("revocation snapshot epoch rolled back"));
      }
      if SaturatingSub(query.now, snapshot.body.publishedAt) > settings.maxStaleness {
        return Err(LogUnreachable("revocation snapshot is stale"));
      }
      lastSeenEpoch := snapshot.body.epoch;
      if query.id in snapshot.body.revoked {
        answer := Ok(Revoked("listed in the signed revocation snapshot"));
      } else {
        answer := Ok(Live);
      }
    }
  }

  function StatusOf(query: Query): Status
    requires query.fetched.Ok?
  {
    if query.id in query.fetched.value.body.revoked then Revoked("listed in the signed revocation snapshot") else Live
  }

  function SeenAfter(settings: CheckerSettings, lastSeen: nat, query: Query): nat {
    if Trusted(settings, lastSeen, query) then query.fetched.value.body.epoch else lastSeen
  }

  /** The newest epoch accepted in the first `n` lookups of a run. */
  function SeenIn(settings: CheckerSettings, queries: seq<Query>, n: nat): nat
    requires n <= |queries|
  {
    if n == 0 then 0 else SeenAfter(settings, SeenIn(settings, queries, n - 1), queries[n - 1])
  }

  /** Lookup `i` of a run was answered with this status. */
  predicate Answered(settings: CheckerSettings, queries: seq<Query>, i: nat, status: Status)
    requires i < |queries|
  {
    Trusted(settings, SeenIn(settings, queries, i), queries[i]) && StatusOf(queries[i]) == status
  }

  /** The operator key signs only states the publisher went through. Anything signed may be
      delayed, repeated or reordered on the way. */
  ghost predicate HonestOperator(settings: CheckerSettings, history: seq<set<RevocationId>>) {
    forall body, signature :: VerifySignature(settings.schemes, body, signature, settings.operatorKey) == Ok(true) ==>
      body.epoch < |history| && body.revoked == history[body.epoch]
  }

  /** When a lookup is answered, said on the query itself. */
  lemma TrustedExact(settings: CheckerSettings, lastSeen: nat, query: Query)
    ensures Trusted(settings, lastSeen, query) <==>
            && query.fetched.Ok?
            && var snapshot := query.fetched.value;
            && VerifySignature(settings.schemes, snapshot.body, snapshot.signature, settings.operatorKey) == Ok(true)
            && lastSeen <= snapshot.body.epoch && query.now <= snapshot.body.publishedAt + settings.maxStaleness
  {}

  /** Every answer of a run is the truth of a state the publisher was in, dated at most the allowed
      staleness before the answer, and of no earlier epoch than any answer before it. */
  lemma {:induction false} AnswerIsFreshTruth(settings: CheckerSettings, history: seq<set<RevocationId>>,
                                              queries: seq<Query>, i: nat, j: nat, status: Status)
    requires HonestOperator(settings, history) && i <= j < |queries|
    requires Trusted(settings, SeenIn(settings, queries, i), queries[i]) && Answered(settings, queries, j, status)
    ensures var first, later := queries[i].fetched.value.body, queries[j].fetched.value.body;
            && first.epoch <= later.epoch < |history|
            && (status.Live? <==> queries[j].id !in history[later.epoch])
            && (status.Revoked? <==> queries[j].id in history[later.epoch])
            && queries[j].now <= later.publishedAt + settings.maxStaleness
  {
    var later := queries[j].fetched.value;
    assert VerifySignature(settings.schemes, later.body, later.signature, settings.operatorKey) == Ok(true);
    if i < j { SeenGrows(settings, queries, i + 1, j); }
  }

  /** An answer is the truth at some epoch, and later answers come from no earlier epoch. */
  lemma {:induction false} SeenGrows(settings: CheckerSettings, queries: seq<Query>, i: nat, j: nat)
    requires i <= j <= |queries|
    ensures SeenIn(settings, queries, i) <= SeenIn(settings, queries, j)
    decreases j
  {
    if i < j { SeenGrows(settings, queries, i, j - 1); }
  }

  /** MAIN RESULT. Whatever the network does with signed snapshots, an id once answered as
      revoked is never answered as live by any later lookup of the same checker; an answer of
      either kind is the truth at the epoch of the snapshot it came from, published at most the
      allowed staleness before the answer. */
  lemma {:induction false} NoUnrevocation(settings: CheckerSettings, history: seq<set<RevocationId>>,
                                          queries: seq<Query>, i: nat, j: nat)
    requires GoodEpochs(history) && HonestOperator(settings, history)
    requires i < j < |queries| && queries[i].id == queries[j].id
    requires Trusted(settings, SeenIn(settings, queries, i), queries[i])
    requires Answered(settings, queries, j, Live)
    ensures var epochs := (queries[i].fetched.value.body.epoch, queries[j].fetched.value.body.epoch);
            && epochs.0 <= epochs.1 < |history|
            && queries[j].id !in history[epochs.1] && queries[i].id !in history[epochs.0]
    ensures queries[i].now <= queries[i].fetched.value.body.publishedAt + settings.maxStaleness
    ensures queries[j].now <= queries[j].fetched.value.body.publishedAt + settings.maxStaleness
    ensures Answered(settings, queries, i, Live)
  {
    SeenGrows(settings, queries, i + 1, j);
    EpochsGrow(history, queries[i].fetched.value.body.epoch, queries[j].fetched.value.body.epoch);
  }

  /** A freshly served snapshot satisfies every checker that has seen nothing newer. */
  lemma ServedSnapshotTrusted(settings: CheckerSettings, signer: Signer<Snapshot>, history: seq<set<RevocationId>>,
                              snapshot: SignedSnapshot, now: nat, id: RevocationId, lastSeen: nat)
    requires history != [] && snapshot.body == Snapshot(|history| - 1, now, history[|history| - 1])
    requires signer.sign(snapshot.body) == Ok(snapshot.signature)
    requires Genuine(settings.schemes, signer) && signer.publicKey == settings.operatorKey && lastSeen < |history|
    ensures Trusted(settings, lastSeen, Query(Ok(snapshot), now, id))
    ensures StatusOf(Query(Ok(snapshot), now, id)).Live? <==> id !in history[|history| - 1]
  {}
}
