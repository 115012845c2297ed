/** The log file of the witness service: length-prefixed frames, replayed on start, appended to
    and synced before a receipt is acknowledged. The file is its bytes; a crash leaves an
    arbitrary prefix of the frame being appended. */
module DurableLog {
  import opened Wrappers
  import opened Digests
  import opened Signatures
  import opened WitnessLog

  /** The canonical JSON of a receipt and the parser that reads it back. */
  datatype ReceiptCodec = ReceiptCodec(encode: Receipt -> seq<Byte>, decode: seq<Byte> -> Option<Receipt>)

  ghost predicate GoodCodec(codec: ReceiptCodec) {
    forall receipt :: codec.decode(codec.encode(receipt)) == Some(receipt)
  }

  datatype StoreError = InvalidData

  /** The receipts restored and the bytes their frames take. */
  datatype Replayed = Replayed(receipts: seq<Receipt>, committed: nat)

  /** Little-endian bytes of a 32-bit word. */
  function LittleEndian(n: nat): (bytes: seq<Byte>)
    requires n < WORD32
    ensures |bytes| == 4
  {
    var b := BigEndian(n);
    [b[3], b[2], b[1], b[0]]
  }

  /** The length of the first frame with its prefix, when all of it is there. */
  function FrameLength(bytes: seq<Byte>): (n: Option<nat>)
    ensures n.Some? ==> 4 <= n.value <= |bytes|
  {
    if |bytes| < 4 then None
    else
      var n := 4 + FromBigEndian(bytes[3], bytes[2], bytes[1], bytes[0]);
      if n > |bytes| then None else Some(n)
  }

  /** What opening a file restores: the receipts of the leading frames and how many bytes they
      take. A damaged frame is an error unless nothing follows it. */
  function Replay(codec: ReceiptCodec, bytes: seq<Byte>): (r: Result<Replayed, StoreError>)
    ensures r.Ok? ==> r.value.committed <= |bytes|
    decreases |bytes|, 1
  {
    match FrameLength(bytes)
    case None => Ok(Replayed([], 0))
    case Some(n) => ReplayFrame(codec, bytes, n)
  }

  /** The first frame, `n` bytes long, and what follows it. */
  function ReplayFrame(codec: ReceiptCodec, bytes: seq<Byte>, n: nat): (r: Result<Replayed, StoreError>)
    requires 4 <= n <= |bytes|
    ensures r.Ok? ==> r.value.committed <= |bytes|
    decreases |bytes|, 0
  {
    match codec.decode(bytes[4..n])
    case None => if n < |bytes| then Err(InvalidData) else Ok(Replayed([], 0))
    case Some(receipt) => After([receipt], n, Replay(codec, bytes[n..]))
  }

  /** A replay that continues one already under way. */
  function After(receipts: seq<Receipt>, size: nat, rest: Result<Replayed, StoreError>):
      Result<Replayed, StoreError>
  {
    match rest
    case Err(e) => Err(e)
    case Ok(rest) => Ok(Replayed(receipts + rest.receipts, size + rest.committed))
  }

  /** The file is whole frames and nothing else. */
  ghost predicate Clean(codec: ReceiptCodec, bytes: seq<Byte>, receipts: seq<Receipt>) {
    Replay(codec, bytes) == Ok(Replayed(receipts, |bytes|))
  }

  /** Where a scan stands: the receipts of the frames before the cursor are restored. */
  ghost predicate Scanned(codec: ReceiptCodec, bytes: seq<Byte>, cursor: nat, receipts: seq<Receipt>) {
    cursor <= |bytes| && Replay(codec, bytes) == After(receipts, cursor, Replay(codec, bytes[cursor..]))
  }

  /** Opening scans for whole frames, appends their receipts to the log and drops what is torn. */
  method OpenStore(codec: ReceiptCodec, bytes: seq<Byte>, log: Witness) returns (r: Result<seq<Byte>, StoreError>)
    requires log.Valid() && |log.leafHashes| + |bytes| <= MAX_LEAVES
    modifies log`leafHashes
    ensures log.Valid()
    ensures match Replay(codec, bytes)
            case Err(e) => r == Err(e)
            case Ok(replayed) =>
              r == Ok(bytes[..replayed.committed]) &&
              log.leafHashes == old(log.leafHashes) + LeafHashes(replayed.receipts)
  {
    var cursor := 0;
    ghost var before, receipts: seq<Receipt> := log.leafHashes, [];
    assert before + LeafHashes(receipts) == before;
    ScanStarts(codec, bytes);
    while cursor + 4 <= |bytes|
      invariant log.Valid() && |receipts| <= cursor && log.leafHashes == before + LeafHashes(receipts)
      invariant Scanned(codec, bytes, cursor, receipts)
    {
      var len := FromBigEndian(bytes[cursor + 3], bytes[cursor + 2], bytes[cursor + 1], bytes[cursor]);
      var body := cursor + 4;
      FrameLengthAt(bytes, cursor, len);
      if body + len > |bytes| { break; }
      var receipt := codec.decode(bytes[body..body + len]);
      assert Replay(codec, bytes[cursor..]) == ReplayFrame(codec, bytes[cursor..], 4 + len);
      if receipt.None? {
        if body + len < |bytes| { return Err(InvalidData); }
        break;
      }
      ScanContinues(codec, bytes, cursor, len, receipts, receipt.value);
      LeafHashesSnoc(before, receipts, receipt.value);
      var index := log.Append(receipt.value);
      receipts := receipts + [receipt.value];
      cursor := body + len;
    }
    assert Replay(codec, bytes[cursor..]) == Ok(Replayed([], 0));
    assert receipts + [] == receipts;
    r := Ok(bytes[..cursor]);
  }

  lemma ScanStarts(codec: ReceiptCodec, bytes: seq<Byte>)
    ensures Scanned(codec, bytes, 0, [])
  {
    assert bytes[0..] == bytes;
    if Replay(codec, bytes).Ok? { assert [] + Replay(codec, bytes).value.receipts ==
                                 Replay(codec, bytes).value.receipts; }
  }

  lemma ScanContinues(codec: ReceiptCodec, bytes: seq<Byte>, cursor: nat, len: nat,
                      receipts: seq<Receipt>, receipt: Receipt)
    requires Scanned(codec, bytes, cursor, receipts) && cursor + 4 + len <= |bytes|
    requires FrameLength(bytes[cursor..]) == Some(4 + len)
    requires bytes[cursor..][4..4 + len] == bytes[cursor + 4..cursor + 4 + len]
    requires bytes[cursor..][4 + len..] == bytes[cursor + 4 + len..]
    requires codec.decode(bytes[cursor + 4..cursor + 4 + len]) == Some(receipt)
    ensures Scanned(codec, bytes, cursor + 4 + len, receipts + [receipt])
  {
    var rest := Replay(codec, bytes[cursor + 4 + len..]);
    assert Replay(codec, bytes[cursor..]) == After([receipt], 4 + len, rest);
    if rest.Ok? {
      assert receipts + ([receipt] + rest.value.receipts) == receipts + [receipt] + rest.value.receipts;
    }
  }

  /** The length prefix at a cursor is the one the rest of the file starts with. */
  lemma FrameLengthAt(bytes: seq<Byte>, cursor: nat, len: nat)
    requires cursor + 4 <= |bytes|
    requires len == FromBigEndian(bytes[cursor + 3], bytes[cursor + 2], bytes[cursor + 1], bytes[cursor])
    ensures FrameLength(bytes[cursor..]) == if cursor + 4 + len > |bytes| then None else Some(4 + len)
    ensures cursor + 4 + len <= |bytes| ==>
            && bytes[cursor..][4..4 + len] == bytes[cursor + 4..cursor + 4 + len]
            && bytes[cursor..][4 + len..] == bytes[cursor + 4 + len..]
  {
    var rest := bytes[cursor..];
    assert rest[0] == bytes[cursor] && rest[1] == bytes[cursor + 1] && rest[2] == bytes[cursor + 2] &&
           rest[3] == bytes[cursor + 3];
  }

  lemma LeafHashesSnoc(before: seq<Digest>, receipts: seq<Receipt>, receipt: Receipt)
    ensures before + LeafHashes(receipts + [receipt]) == before + LeafHashes(receipts) + [HashReceipt(receipt)]
  {
    assert LeafHashes(receipts + [receipt]) == LeafHashes(receipts) + [HashReceipt(receipt)];
  }

  // What replay does to any file

  /** A frame that is all there is read the same whatever follows. */
  lemma FrameLengthOfFront(front: seq<Byte>, rest: seq<Byte>, n: nat)
    requires FrameLength(front) == Some(n)
    ensures FrameLength(front + rest) == Some(n)
    ensures (front + rest)[4..n] == front[4..n] && (front + rest)[n..] == front[n..] + rest
  {
    var bytes := front + rest;
    assert bytes[0] == front[0] && bytes[1] == front[1] && bytes[2] == front[2] && bytes[3] == front[3];
  }

  lemma FrameLengthOfPrefix(bytes: seq<Byte>, n: nat, kept: nat)
    requires FrameLength(bytes) == Some(n) && n <= kept <= |bytes|
    ensures FrameLength(bytes[..kept]) == Some(n)
    ensures bytes[..kept][4..n] == bytes[4..n] && bytes[..kept][n..] == bytes[n..][..kept - n]
  {
    var front := bytes[..kept];
    assert front[0] == bytes[0] && front[1] == bytes[1] && front[2] == bytes[2] && front[3] == bytes[3];
  }

  /** Whole frames at the front never change what is read behind them. */
  lemma {:induction false} ReplayConcat(codec: ReceiptCodec, front: seq<Byte>, receipts: seq<Receipt>, rest: seq<Byte>)
    requires Clean(codec, front, receipts)
    ensures Replay(codec, front + rest) == After(receipts, |front|, Replay(codec, rest))
    decreases |front|
  {
    if front == [] {
      assert front + rest == rest && rest[0..] == rest;
      ScanStarts(codec, rest);
    } else {
      var n := FrameLength(front).value;
      FrameLengthOfFront(front, rest, n);
      assert Replay(codec, front) == ReplayFrame(codec, front, n);
      assert Replay(codec, front + rest) == ReplayFrame(codec, front + rest, n);
      var first := codec.decode(front[4..n]).value;
      var more := Replay(codec, front[n..]).value.receipts;
      ReplayConcat(codec, front[n..], more, rest);
      AfterFront(first, n, more, |front| - n, Replay(codec, rest));
    }
  }

  lemma AfterFront(first: Receipt, n: nat, more: seq<Receipt>, size: nat, rest: Result<Replayed, StoreError>)
    ensures After([first], n, After(more, size, rest)) == After([first] + more, n + size, rest)
  {
    if rest.Ok? {
      assert [first] + (more + rest.value.receipts) == [first] + more + rest.value.receipts;
    }
  }

  /** What opening leaves of any file it can open is whole frames: opening again restores the
      same receipts and cuts nothing more. */
  lemma {:induction false} ReopenStable(codec: ReceiptCodec, bytes: seq<Byte>, receipts: seq<Receipt>, committed: nat)
    requires Replay(codec, bytes) == Ok(Replayed(receipts, committed))
    ensures committed <= |bytes| && Clean(codec, bytes[..committed], receipts)
    decreases |bytes|
  {
    if committed > 0 {
      var n := FrameLength(bytes).value;
      var Replayed(more, size) := Replay(codec, bytes[n..]).value;
      ReopenStable(codec, bytes[n..], more, size);
      assert committed == n + size;
      FrameLengthOfPrefix(bytes, n, committed);
    }
  }

  /** What a scan leaves behind is torn, and so is any shorter piece of it. */
  lemma {:induction false} TornPiece(codec: ReceiptCodec, rest: seq<Byte>, k: nat)
    requires Replay(codec, rest) == Ok(Replayed([], 0)) && k <= |rest|
    ensures Replay(codec, rest[..k]) == Ok(Replayed([], 0))
  {
    var piece := rest[..k];
    if FrameLength(piece).Some? {
      var n := FrameLength(piece).value;
      assert piece + rest[k..] == rest;
      FrameLengthOfFront(piece, rest[k..], n);
      assert Replay(codec, rest) == ReplayFrame(codec, rest, n);
      assert Replay(codec, piece) == ReplayFrame(codec, piece, n);
    }
  }

  /** A crash while the torn tail is being cut off, at any length, changes nothing that the next
      opening restores. */
  lemma TruncationRecovers(codec: ReceiptCodec, bytes: seq<Byte>, receipts: seq<Receipt>, committed: nat, k: nat)
    requires Replay(codec, bytes) == Ok(Replayed(receipts, committed)) && committed <= k <= |bytes|
    ensures Replay(codec, bytes[..k]) == Ok(Replayed(receipts, committed))
  {
    var front, rest := bytes[..committed], bytes[committed..];
    ReopenStable(codec, bytes, receipts, committed);
    assert bytes == front + rest;
    ReplayConcat(codec, front, receipts, rest);
    EmptyAfter(receipts, committed, Replay(codec, rest));
    TornPiece(codec, rest, k - committed);
    TornTail(codec, front, receipts, rest[..k - committed]);
    assert bytes[..k] == front + rest[..k - committed];
  }

  lemma EmptyAfter(receipts: seq<Receipt>, size: nat, rest: Result<Replayed, StoreError>)
    requires After(receipts, size, rest) == Ok(Replayed(receipts, size))
    ensures rest == Ok(Replayed([], 0))
  {
    assert |receipts + rest.value.receipts| == |receipts|;
  }

  /** A damaged frame with more data behind it. */
  predicate Damaged(codec: ReceiptCodec, bytes: seq<Byte>) {
    match FrameLength(bytes)
    case None => false
    case Some(n) => n < |bytes| && codec.decode(bytes[4..n]).None?
  }

  ghost predicate DamagedAt(codec: ReceiptCodec, bytes: seq<Byte>, cut: nat) {
    cut <= |bytes| && (exists receipts :: Clean(codec, bytes[..cut], receipts)) && Damaged(codec, bytes[cut..])
  }

  /** Opening fails exactly on interior damage: whole frames, then a frame that does not parse
      with data behind it. */
  lemma InteriorDamageExact(codec: ReceiptCodec, bytes: seq<Byte>)
    ensures Replay(codec, bytes).Err? <==> exists cut: nat :: DamagedAt(codec, bytes, cut)
  {
    if Replay(codec, bytes).Err? {
      var cut := DamagePoint(codec, bytes);
    }
    forall cut: nat | DamagedAt(codec, bytes, cut) ensures Replay(codec, bytes).Err? {
      var receipts :| Clean(codec, bytes[..cut], receipts);
      ReplayConcat(codec, bytes[..cut], receipts, bytes[cut..]);
      assert bytes == bytes[..cut] + bytes[cut..];
    }
  }

  lemma FirstFrameClean(codec: ReceiptCodec, bytes: seq<Byte>, n: nat, first: Receipt)
    requires FrameLength(bytes) == Some(n) && codec.decode(bytes[4..n]) == Some(first)
    ensures Clean(codec, bytes[..n], [first])
  {
    FrameLengthOfPrefix(bytes, n, n);
    var front := bytes[..n];
    assert front[n..] == [] && [first] + [] == [first];
    assert Replay(codec, front[n..]) == Ok(Replayed([], 0));
    assert ReplayFrame(codec, front, n) == Ok(Replayed([first], n));
    assert Replay(codec, front) == ReplayFrame(codec, front, n);
  }

  lemma {:induction false} DamagePoint(codec: ReceiptCodec, bytes: seq<Byte>) returns (cut: nat)
    requires Replay(codec, bytes).Err?
    ensures DamagedAt(codec, bytes, cut)
    decreases |bytes|
  {
    var n := FrameLength(bytes).value;
    if codec.decode(bytes[4..n]).None? {
      cut := 0;
      assert bytes[0..] == bytes && Clean(codec, bytes[..0], []);
    } else {
      var rest := DamagePoint(codec, bytes[n..]);
      cut := n + rest;
      var more :| Clean(codec, bytes[n..][..rest], more);
      var first := codec.decode(bytes[4..n]).value;
      FirstFrameClean(codec, bytes, n, first);
      ReplayConcat(codec, bytes[..n], [first], bytes[n..][..rest]);
      assert bytes[..cut] == bytes[..n] + bytes[n..][..rest] && bytes[cut..] == bytes[n..][rest..];
      assert Clean(codec, bytes[..cut], [first] + more);
    }
  }

  // What the service writes

  predicate Fits(codec: ReceiptCodec, receipt: Receipt) {
    |codec.encode(receipt)| < WORD32
  }

  function Frame(codec: ReceiptCodec, receipt: Receipt): (frame: seq<Byte>)
    requires Fits(codec, receipt)
    ensures |frame| == 4 + |codec.encode(receipt)|
  {
    LittleEndian(|codec.encode(receipt)|) + codec.encode(receipt)
  }

  /** A file that a sequence of completed appends leaves behind. */
  function Frames(codec: ReceiptCodec, receipts: seq<Receipt>): seq<Byte>
    requires forall receipt :: receipt in receipts ==> Fits(codec, receipt)
  {
    if receipts == [] then []
    else Frames(codec, receipts[..|receipts| - 1]) + Frame(codec, receipts[|receipts| - 1])
  }

  lemma FrameReads(codec: ReceiptCodec, receipt: Receipt, rest: seq<Byte>)
    requires Fits(codec, receipt)
    ensures FrameLength(Frame(codec, receipt) + rest) == Some(|Frame(codec, receipt)|)
    ensures (Frame(codec, receipt) + rest)[4..|Frame(codec, receipt)|] == codec.encode(receipt)
    ensures (Frame(codec, receipt) + rest)[|Frame(codec, receipt)|..] == rest
  {
    var body := codec.encode(receipt);
    var length, bytes := LittleEndian(|body|), Frame(codec, receipt) + rest;
    BigEndianRoundTrip(|body|);
    assert bytes[0] == length[0] && bytes[1] == length[1] && bytes[2] == length[2] && bytes[3] == length[3];
  }

  /** The bytes of a frame: four bytes of length, the least significant first, and the body. */
  lemma FrameLayout(codec: ReceiptCodec, receipt: Receipt)
    requires Fits(codec, receipt)
    ensures var frame := Frame(codec, receipt);
            && |codec.encode(receipt)| == Value(frame[3], frame[2], frame[1], frame[0])
            && frame[4..] == codec.encode(receipt)
  {
    BigEndianRoundTrip(|codec.encode(receipt)|);
  }

  /** A frame cut anywhere short of its end restores nothing; a whole one restores its receipt. */
  lemma TornFrame(codec: ReceiptCodec, receipt: Receipt, cut: nat)
    requires GoodCodec(codec) && Fits(codec, receipt) && cut <= |Frame(codec, receipt)|
    ensures Replay(codec, Frame(codec, receipt)[..cut]) ==
            if cut == |Frame(codec, receipt)| then Ok(Replayed([receipt], cut)) else Ok(Replayed([], 0))
  {
    var frame := Frame(codec, receipt);
    FrameReads(codec, receipt, []);
    assert frame + [] == frame && frame[..|frame|] == frame;
    if 4 <= cut < |frame| {
      assert frame[..cut][0] == frame[0] && frame[..cut][1] == frame[1] && frame[..cut][2] == frame[2] &&
             frame[..cut][3] == frame[3];
    } else if cut == |frame| {
      assert Replay(codec, []) == Ok(Replayed([], 0)) && [receipt] + [] == [receipt];
    }
  }

  lemma {:induction false} FramesClean(codec: ReceiptCodec, receipts: seq<Receipt>)
    requires GoodCodec(codec) && forall receipt :: receipt in receipts ==> Fits(codec, receipt)
    ensures Clean(codec, Frames(codec, receipts), receipts)
    decreases |receipts|
  {
    if receipts != [] {
      var front, last := receipts[..|receipts| - 1], receipts[|receipts| - 1];
      FramesClean(codec, front);
      CleanGrows(codec, Frames(codec, front), front, last);
      assert front + [last] == receipts;
    }
  }

  lemma CleanGrows(codec: ReceiptCodec, bytes: seq<Byte>, receipts: seq<Receipt>, receipt: Receipt)
    requires GoodCodec(codec) && Clean(codec, bytes, receipts) && Fits(codec, receipt)
    ensures Clean(codec, bytes + Frame(codec, receipt), receipts + [receipt])
  {
    FrameClean(codec, receipt);
    ReplayConcat(codec, bytes, receipts, Frame(codec, receipt));
  }

  lemma FrameClean(codec: ReceiptCodec, receipt: Receipt)
    requires GoodCodec(codec) && Fits(codec, receipt)
    ensures Clean(codec, Frame(codec, receipt), [receipt])
  {
    var frame := Frame(codec, receipt);
    TornFrame(codec, receipt, |frame|);
    assert frame[..|frame|] == frame;
  }

  lemma FramesGrow(codec: ReceiptCodec, log: seq<Receipt>, receipt: Receipt)
    requires (forall r :: r in log ==> Fits(codec, r)) && Fits(codec, receipt)
    ensures forall r :: r in log + [receipt] ==> Fits(codec, r)
    ensures Frames(codec, log + [receipt]) == Frames(codec, log) + Frame(codec, receipt)
  {
    assert (log + [receipt])[..|log|] == log;
  }

  /** A torn tail adds nothing to what is in front of it. */
  lemma TornTail(codec: ReceiptCodec, bytes: seq<Byte>, receipts: seq<Receipt>, tail: seq<Byte>)
    requires Clean(codec, bytes, receipts) && Replay(codec, tail) == Ok(Replayed([], 0))
    ensures Replay(codec, bytes + tail) == Ok(Replayed(receipts, |bytes|))
    ensures (bytes + tail)[..|bytes|] == bytes
  {
    ReplayConcat(codec, bytes, receipts, tail);
    assert receipts + [] == receipts;
  }

  /** MAIN RESULT. A crash that cuts an append at any byte loses nothing committed before it and
      leaves a file of whole frames: the receipt being appended is restored or absent. */
  lemma CrashRecovers(codec: ReceiptCodec, receipts: seq<Receipt>, receipt: Receipt, cut: nat)
    requires GoodCodec(codec) && Fits(codec, receipt) && cut <= |Frame(codec, receipt)|
    requires forall r :: r in receipts ==> Fits(codec, r)
    ensures var bytes := Frames(codec, receipts) + Frame(codec, receipt)[..cut];
            var restored := if cut == |Frame(codec, receipt)| then receipts + [receipt] else receipts;
            && (forall r :: r in restored ==> Fits(codec, r))
            && Replay(codec, bytes) == Ok(Replayed(restored, |Frames(codec, restored)|))
            && bytes[..|Frames(codec, restored)|] == Frames(codec, restored)
  {
    var frame := Frame(codec, receipt);
    if cut == |frame| {
      FramesGrow(codec, receipts, receipt);
      FramesClean(codec, receipts + [receipt]);
      assert frame[..|frame|] == frame;
    } else {
      FramesClean(codec, receipts);
      TornFrame(codec, receipt, cut);
      TornTail(codec, Frames(codec, receipts), receipts, frame[..cut]);
    }
  }
}
