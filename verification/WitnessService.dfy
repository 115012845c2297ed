/** The durable witness service: submissions, crashes in the middle of an append, restarts.
    Each handler is one atomic step. */
module WitnessService {
  import opened Wrappers
  import opened Digests
  import opened MerkleTree
  import opened Inclusion
  import opened Signatures
  import opened WitnessLog
  import opened DurableLog

  datatype SubmitError = StalePrevRoot | Internal

  /** The receipt names the current root and its frame length fits the prefix. */
  function Admitted(codec: ReceiptCodec, log: seq<Receipt>, receipt: Receipt): Result<(), SubmitError> {
    if receipt.prevRoot != Mth(LeafHashes(log)) then Err(StalePrevRoot)
    else if !Fits(codec, receipt) then Err(Internal)
    else Ok(())
  }

  /** The service between steps: the file, the receipts of the tree in memory, every
      acknowledgement ever sent with the leaf index it named, and how many submissions were cut
      short by a crash. */
  datatype Service = Service(disk: seq<Byte>, log: seq<Receipt>, acked: seq<(nat, Receipt)>, crashes: nat)

  datatype Event =
    | Submit(receipt: Receipt)
    | CrashDuring(receipt: Receipt, cut: nat)   // the process dies with `cut` bytes of the frame on disk
    | Restart

  const FRESH: Service := Service([], [], [], 0)

  /** Opening the file again. */
  function Reopened(codec: ReceiptCodec, service: Service, disk: seq<Byte>): Option<Service> {
    match Replay(codec, disk)
    case Err(_) => None
    case Ok(replayed) => Some(service.(disk := disk[..replayed.committed], log := replayed.receipts))
  }

  /** One step; `None` when the service does not come up again. */
  function Next(codec: ReceiptCodec, service: Service, event: Event): Option<Service> {
    match event
    case Restart => Reopened(codec, service, service.disk)
    case Submit(receipt) =>
      if Admitted(codec, service.log, receipt).Err? then Some(service)
      else Some(service.(disk := service.disk + Frame(codec, receipt), log := service.log + [receipt],
                         acked := service.acked + [(|service.log|, receipt)]))
    case CrashDuring(receipt, cut) =>
      if Admitted(codec, service.log, receipt).Err? then Reopened(codec, service, service.disk)
      else
        var frame := Frame(codec, receipt);
        Reopened(codec, service.(crashes := service.crashes + 1),
                 service.disk + frame[..if cut < |frame| then cut else |frame|])
  }

  function Run(codec: ReceiptCodec, events: seq<Event>): Option<Service> {
    if events == [] then Some(FRESH)
    else
      match Run(codec, events[..|events| - 1])
      case None => None
      case Some(service) => Next(codec, service, events[|events| - 1])
  }

  /** A submission is taken exactly when it names the root of the current log and its canonical
      bytes are shorter than 2^32; what is wrong with the root is reported first. */
  lemma SubmissionExact(codec: ReceiptCodec, service: Service, receipt: Receipt)
    ensures var after := Next(codec, service, Event.Submit(receipt));
            if receipt.prevRoot == Mth(LeafHashes(service.log)) && |codec.encode(receipt)| < 0x1_0000_0000 then
              && after.Some? && after.value.log == service.log + [receipt]
              && after.value.acked == service.acked + [(|service.log|, receipt)]
              && after.value.disk == service.disk + LittleEndian(|codec.encode(receipt)|) + codec.encode(receipt)
            else after == Some(service)
    ensures Admitted(codec, service.log, receipt) == Err(StalePrevRoot) <==>
            receipt.prevRoot != Mth(LeafHashes(service.log))
  {}

  /** Every receipt of the log was submitted against the root of the log before it. */
  ghost predicate RootsLinked(log: seq<Receipt>) {
    forall i :: 0 <= i < |log| ==> RootLinked(log, i)
  }

  ghost predicate RootLinked(log: seq<Receipt>, i: nat)
    requires i < |log|
  {
    log[i].prevRoot == Mth(LeafHashes(log[..i]))
  }

  /** Every acknowledged receipt is at the index it was acknowledged with, and later
      acknowledgements name later indices. */
  ghost predicate AcksHold(service: Service) {
    && (forall k :: 0 <= k < |service.acked| ==> AckHolds(service, k))
    && |service.acked| <= |service.log| <= |service.acked| + service.crashes
  }

  ghost predicate AckHolds(service: Service, k: nat)
    requires k < |service.acked|
  {
    var (index, receipt) := service.acked[k];
    && index < |service.log| && service.log[index] == receipt
    && (k > 0 ==> service.acked[k - 1].0 < index)
  }

  /** What every reachable state satisfies: the file is exactly the frames of the log. */
  ghost predicate GoodService(codec: ReceiptCodec, service: Service) {
    && (forall r :: r in service.log ==> Fits(codec, r))
    && service.disk == Frames(codec, service.log)
    && RootsLinked(service.log)
    && AcksHold(service)
  }

  lemma RootsLinkedGrows(log: seq<Receipt>, receipt: Receipt)
    requires RootsLinked(log) && receipt.prevRoot == Mth(LeafHashes(log))
    ensures RootsLinked(log + [receipt])
  {
    var grown := log + [receipt];
    forall i | 0 <= i < |grown| ensures RootLinked(grown, i) {
      assert grown[..i] == if i < |log| then log[..i] else log;
      if i < |log| { assert RootLinked(log, i); }
    }
  }

  /** Restored receipts keep their indices, so acknowledgements survive a longer log. */
  lemma AcksSurvive(before: Service, after: Service)
    requires AcksHold(before) && after.acked == before.acked && before.log <= after.log
    requires |after.log| - |before.log| <= after.crashes - before.crashes
    ensures AcksHold(after)
  {
    forall k | 0 <= k < |after.acked| ensures AckHolds(after, k) {
      assert AckHolds(before, k) && after.log[before.acked[k].0] == before.log[before.acked[k].0];
    }
  }

  lemma AckAdded(before: Service, after: Service, receipt: Receipt)
    requires AcksHold(before) && after.crashes == before.crashes
    requires after.log == before.log + [receipt] && after.acked == before.acked + [(|before.log|, receipt)]
    ensures AcksHold(after)
  {
    forall k | 0 <= k < |after.acked| ensures AckHolds(after, k) {
      if k < |before.acked| { assert AckHolds(before, k); }
      if 0 < k == |before.acked| { assert AckHolds(before, k - 1); }
    }
  }

  /** The receipt a step adds to the log: one just submitted, or one whose whole frame reached the
      disk before the crash. */
  predicate Adds(codec: ReceiptCodec, service: Service, event: Event) {
    && !event.Restart? && Admitted(codec, service.log, event.receipt).Ok?
    && (event.CrashDuring? ==> |Frame(codec, event.receipt)| <= event.cut)
  }

  /** What a step from a good state does to the log and to the acknowledgements. */
  lemma NextLog(codec: ReceiptCodec, service: Service, event: Event)
    requires DurableLog.GoodCodec(codec) && GoodService(codec, service)
    ensures Next(codec, service, event).Some?
    ensures var after := Next(codec, service, event).value;
            && after.log == (if Adds(codec, service, event) then service.log + [event.receipt] else service.log)
            && (forall r :: r in after.log ==> Fits(codec, r)) && after.disk == Frames(codec, after.log)
            && after.acked == (if event.Submit? && Adds(codec, service, event)
                               then service.acked + [(|service.log|, event.receipt)] else service.acked)
            && after.crashes == service.crashes + (if event.CrashDuring?
                                                      && Admitted(codec, service.log, event.receipt).Ok? then 1 else 0)
  {
    if event.Restart? || Admitted(codec, service.log, event.receipt).Err? {
      FramesClean(codec, service.log);
      assert service.disk[..|service.disk|] == service.disk;
    } else {
      FramesGrow(codec, service.log, event.receipt);
      if event.CrashDuring? {
        var frame := Frame(codec, event.receipt);
        CrashRecovers(codec, service.log, event.receipt, if event.cut < |frame| then event.cut else |frame|);
      }
    }
  }

  /** Every step from a good state comes up again in a good state. */
  lemma NextIsGood(codec: ReceiptCodec, service: Service, event: Event)
    requires DurableLog.GoodCodec(codec) && GoodService(codec, service)
    ensures Next(codec, service, event).Some? && GoodService(codec, Next(codec, service, event).value)
  {
    NextLog(codec, service, event);
    var after := Next(codec, service, event).value;
    if Adds(codec, service, event) { RootsLinkedGrows(service.log, event.receipt); }
    if event.Submit? && Adds(codec, service, event) {
      AckAdded(service, after, event.receipt);
    } else {
      AcksSurvive(service, after);
    }
  }

  /** MAIN RESULT. Over every run of submissions, crashes at any byte and restarts, the service
      always comes up again; the file is exactly the frames of the log; every acknowledged
      receipt is still at its index; nothing else is in the log but at most one receipt per
      submission cut short; and every receipt names the root of the log before it. */
  lemma {:induction false} RunIsDurable(codec: ReceiptCodec, events: seq<Event>)
    requires DurableLog.GoodCodec(codec)
    ensures Run(codec, events).Some? && GoodService(codec, Run(codec, events).value)
    decreases |events|
  {
    if events != [] {
      RunIsDurable(codec, events[..|events| - 1]);
      NextIsGood(codec, Run(codec, events[..|events| - 1]).value, events[|events| - 1]);
    }
  }

  /** The event met a log of `i` receipts and added one. */
  ghost predicate Put(codec: ReceiptCodec, met: Option<Service>, event: Event, i: nat) {
    met.Some? && |met.value.log| == i && Adds(codec, met.value, event)
  }

  /** The receipt of an event is at index `i`, acknowledged there if it was submitted and never
      acknowledged if a crash cut it short. */
  ghost predicate Recorded(after: Service, event: Event, i: nat) {
    && !event.Restart? && i < |after.log| && after.log[i] == event.receipt
    && (event.Submit? ==> (i, event.receipt) in after.acked)
    && (event.CrashDuring? ==> forall ack :: ack in after.acked ==> ack.0 != i)
  }

  /** Event `e` of a run put the receipt at index `i` of its log: an acknowledged submission, or
      one cut short by a crash with its whole frame on disk, and then never acknowledged. */
  ghost predicate PutBy(codec: ReceiptCodec, events: seq<Event>, i: nat, e: nat)
    requires Run(codec, events).Some?
  {
    && e < |events| && Put(codec, Run(codec, events[..e]), events[e], i)
    && Recorded(Run(codec, events).value, events[e], i)
  }

  /** MAIN RESULT. Every receipt of the log was put there by one event of the run, at the moment the
      log had grown up to its index: those not acknowledged are those in flight at a crash. */
  lemma {:induction false} EntryOrigin(codec: ReceiptCodec, events: seq<Event>, i: nat) returns (e: nat)
    requires DurableLog.GoodCodec(codec)
    requires Run(codec, events).Some? && i < |Run(codec, events).value.log|
    ensures PutBy(codec, events, i, e)
    decreases |events|
  {
    var front, last := events[..|events| - 1], events[|events| - 1];
    RunIsDurable(codec, front);
    var before, after := Run(codec, front).value, Run(codec, events).value;
    if i < |before.log| {
      e := EntryOrigin(codec, front, i);
      NextExtends(codec, before, last, after);
      RecordKept(before, after, front[e], i);
      assert events[..e] == front[..e] && events[e] == front[e];
    } else {
      e := |front|;
      LastPut(codec, before, last, after, i);
      assert events[..e] == front;
    }
  }

  /** A step only adds to the log and to the acknowledgements, and acknowledges nothing older. */
  lemma NextExtends(codec: ReceiptCodec, before: Service, event: Event, after: Service)
    requires DurableLog.GoodCodec(codec) && GoodService(codec, before)
    requires Next(codec, before, event) == Some(after)
    ensures before.log <= after.log && before.acked <= after.acked
    ensures forall ack :: ack in after.acked[|before.acked|..] ==> ack.0 == |before.log|
  {
    NextLog(codec, before, event);
  }

  lemma RecordKept(before: Service, after: Service, event: Event, i: nat)
    requires Recorded(before, event, i) && before.log <= after.log && before.acked <= after.acked
    requires forall ack :: ack in after.acked[|before.acked|..] ==> ack.0 == |before.log|
    ensures Recorded(after, event, i)
  {
    assert after.log[i] == before.log[i];
    assert after.acked == before.acked + after.acked[|before.acked|..];
  }

  /** A step whose log grows past `i` is the one that put the receipt there. */
  lemma LastPut(codec: ReceiptCodec, before: Service, event: Event, after: Service, i: nat)
    requires DurableLog.GoodCodec(codec) && GoodService(codec, before)
    requires Next(codec, before, event) == Some(after) && |before.log| <= i < |after.log|
    ensures Put(codec, Some(before), event, i) && Recorded(after, event, i)
  {
    NextLog(codec, before, event);
    AcksBelow(before);
  }

  lemma AcksBelow(service: Service)
    requires AcksHold(service)
    ensures forall ack :: ack in service.acked ==> ack.0 < |service.log|
  {
    forall ack | ack in service.acked ensures ack.0 < |service.log| {
      var k :| 0 <= k < |service.acked| && service.acked[k] == ack;
      assert AckHolds(service, k);
    }
  }

  /** Every receipt of the log names another root, so none is in it twice. */
  lemma NoDuplicates(log: seq<Receipt>, i: nat, j: nat)
    requires RootsLinked(log) && i < |log| && j < |log|
    ensures log[i] == log[j] <==> i == j
  {
    assert RootLinked(log, i) && RootLinked(log, j);
    RootDeterminesLog(log[..i], log[..j]);
  }

  /** MAIN RESULT. Against a log of this service an accepted index is the receipt's own exactly when
      the path turns the way that index and the size of the log dictate. */
  lemma ServedIndexExact(receipt: Receipt, proof: InclusionProof, log: seq<Receipt>)
    requires RootsLinked(log) && |log| <= WORD && proof.leafIndex < |log|
    requires AcceptsInclusion(receipt, proof, Mth(LeafHashes(log)))
    ensures Sides(proof.path) == SidesOf(proof.leafIndex, |log|) <==> log[proof.leafIndex] == receipt
  {
    LeafIndexExact(receipt, proof, log);
    if log[proof.leafIndex] == receipt {
      InclusionExact(receipt, proof, log);
      var i :| 0 <= i < |log| && log[i] == receipt && proof.path == AuditPath(LeafHashes(log), i);
      NoDuplicates(log, i, proof.leafIndex);
    }
  }

  class DurableWitness {
    const codec: ReceiptCodec
    const signer: Signer<TreeHead>
    var disk: seq<Byte>
    var log: Witness
    ghost var service: Service

    ghost predicate Valid()
      reads this, log
    {
      && DurableLog.GoodCodec(codec) && log.Valid()
      && GoodService(codec, service)
      && service.disk == disk && log.leafHashes == LeafHashes(service.log)
    }

    /** A missing file starts an empty log. */
    constructor (codec: ReceiptCodec, signer: Signer<TreeHead>)
      requires DurableLog.GoodCodec(codec)
      ensures Valid() && service == FRESH && this.codec == codec && this.signer == signer && fresh(log)
    {
      this.codec, this.signer := codec, signer;
      disk := [];
      log := new Witness();
      service := FRESH;
    }

    /** A receipt is written to the file before it enters the tree and before it is acknowledged
        with a proof that verifies under the head signed with it. */
    method Submit(receipt: Receipt) returns (r: Result<(nat, InclusionProof, SignedTreeHead), SubmitError>)
      requires Valid() && |log.leafHashes| < MAX_LEAVES && forall head :: signer.sign(head).Ok?
      modifies this, log
      ensures Valid() && log == old(log) && Next(codec, old(service), Event.Submit(receipt)) == Some(service)
      ensures match Admitted(codec, old(service.log), receipt)
              case Err(e) => r == Err(e) && service == old(service)
              case Ok(_) =>
                && r.Ok? && var (index, proof, sth) := r.value;
                && index == |old(service.log)| && proof.leafIndex == index
                && AcceptsInclusion(receipt, proof, sth.head.root)
                && sth.head == HeadOf(LeafHashes(service.log)) && signer.sign(sth.head) == Ok(sth.signature)
    {
      NextIsGood(codec, service, Event.Submit(receipt));
      var root := log.Root();
      if receipt.prevRoot != root { return Err(StalePrevRoot); }
      if !Fits(codec, receipt) { return Err(Internal); }
      disk := disk + Frame(codec, receipt);
      LeafHashesSnoc([], service.log, receipt);
      assert [] + LeafHashes(service.log + [receipt]) == LeafHashes(service.log + [receipt]);
      assert [] + LeafHashes(service.log) == LeafHashes(service.log);
      service := Next(codec, service, Event.Submit(receipt)).value;
      var index := log.Append(receipt);
      var proof := log.ProveInclusion(index);
      var sth := log.SignedHead(signer);
      InclusionExact(receipt, proof.value, service.log);
      assert service.log[index] == receipt;
      r := Ok((index, proof.value, sth));
    }

    /** The process dies, with part of a frame written if an append was under way, and a new
        one opens the file. */
    method Recover(event: Event) returns (ok: bool)
      requires Valid() && !event.Submit?
      requires |disk| + (if event.CrashDuring? &&
                         Fits(codec, event.receipt) then |Frame(codec, event.receipt)| else 0) <= MAX_LEAVES
      modifies this, log
      ensures ok && Valid() && fresh(log) && Next(codec, old(service), event) == Some(service)
    {
      NextIsGood(codec, service, event);
      var left := disk;
      if event.CrashDuring? {
        var root := log.Root();
        if event.receipt.prevRoot == root && Fits(codec, event.receipt) {
          var frame := Frame(codec, event.receipt);
          left := disk + frame[..if event.cut < |frame| then event.cut else |frame|];
        }
      }
      var rebuilt := new Witness();
      var kept := OpenStore(codec, left, rebuilt);
      ok := kept.Ok?;
      disk, log := kept.value, rebuilt;
      service := Next(codec, service, event).value;
      assert [] + LeafHashes(service.log) == LeafHashes(service.log);
    }
  }
}
