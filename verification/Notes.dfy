/** Checkpoints as signed notes: how a note's text splits into a body and signature lines. */
module Notes {
  import opened Wrappers
  import opened Digests
  import opened MerkleTree
  import opened Signatures

  datatype Checkpoint = Checkpoint(origin: string, size: nat, root: Digest)

  /** The text encodings and the key hash a note relies on. */
  datatype NoteCodec = NoteCodec(
    keyHash: (string, seq<Byte>) -> seq<Byte>,
    encode64: seq<Byte> -> string,
    decode64: string -> Option<seq<Byte>>,
    showSize: nat -> string,
    parseSize: string -> Option<nat>,
    encodeRoot: Digest -> string,
    decodeRoot: string -> Option<Digest>)

  /** The em dash and space that open a signature line. */
  const SIG_MARKER: string := "\U{2014} "

  /** Text without line breaks, carriage returns or em dashes. */
  predicate Plain(text: string) {
    '\n' !in text && '\r' !in text && '\U{2014}' !in text
  }

  ghost predicate GoodCodec(codec: NoteCodec) {
    && (forall name, key :: |codec.keyHash(name, key)| == 4)
    && (forall bytes :: Plain(codec.encode64(bytes)) && codec.decode64(codec.encode64(bytes)) == Some(bytes))
    && (forall text :: codec.decode64(text).Some? ==> ' ' !in text)
    && (forall n: nat :: n < WORD ==> Plain(codec.showSize(n)) && codec.parseSize(codec.showSize(n)) == Some(n))
    && (forall root :: Plain(codec.encodeRoot(root)) && codec.decodeRoot(codec.encodeRoot(root)) == Some(root))
  }

  /** `split('\n')`: always at least one piece. */
  function SplitLines(text: string): (pieces: seq<string>)
    ensures |pieces| >= 1
  {
    if text == [] then [[]] else Attach(text[0], SplitLines(text[1..]))
  }

  /** A break starts a new piece; any other character goes to the front of the first. */
  function Attach(c: char, pieces: seq<string>): (whole: seq<string>)
    requires pieces != []
    ensures whole != []
  {
    if c == '\n' then [[]] + pieces else [[c] + pieces[0]] + pieces[1..]
  }

  /** The lines of a text, without the empty piece after a trailing line break. */
  function TextLines(text: string): seq<string> {
    DropEmptyEnd(SplitLines(text))
  }

  function DropEmptyEnd(pieces: seq<string>): seq<string>
    requires pieces != []
  {
    if pieces[|pieces| - 1] == [] then pieces[..|pieces| - 1] else pieces
  }

  function Join(lines: seq<string>): string {
    if lines == [] then []
    else if |lines| == 1 then lines[0]
    else lines[0] + "\n" + Join(lines[1..])
  }

  /** `lines()`: text lines without a trailing carriage return. */
  function StripReturn(line: string): string {
    if line != [] && line[|line| - 1] == '\r' then line[..|line| - 1] else line
  }

  /** Index of the first signature line. */
  function SigStart(lines: seq<string>): (start: Option<nat>)
    ensures start.Some? ==> start.value < |lines| && SIG_MARKER <= lines[start.value]
  {
    if lines == [] then None
    else if SIG_MARKER <= lines[0] then Some(0)
    else
      match SigStart(lines[1..])
      case None => None
      case Some(start) => Some(start + 1)
  }

  lemma {:induction false} SigStartFirst(lines: seq<string>)
    ensures match SigStart(lines)
            case None => forall i :: 0 <= i < |lines| ==> !(SIG_MARKER <= lines[i])
            case Some(start) => forall i :: 0 <= i < start ==> !(SIG_MARKER <= lines[i])
  {
    if lines != [] && !(SIG_MARKER <= lines[0]) {
      SigStartFirst(lines[1..]);
      assert forall i :: 1 <= i < |lines| ==> lines[i] == lines[1..][i - 1];
    }
  }

  /** Everything before the first signature line, if that is at least three lines. */
  function NoteBody(note: string): Option<string> {
    var lines := TextLines(note);
    match SigStart(lines)
    case None => None
    case Some(start) => if start < 3 then None else Some(Join(lines[..start]) + "\n")
  }

  /** Splits at the first space. */
  function SplitOnce(text: string): Option<(string, string)> {
    if text == [] then None
    else if text[0] == ' ' then Some(([], text[1..]))
    else
      match SplitOnce(text[1..])
      case None => None
      case Some((name, rest)) => Some(([text[0]] + name, rest))
  }

  /** Whether a line holds a valid signature over the body under this name and key. */
  predicate ValidSigLine(codec: NoteCodec, schemes: Schemes<string>, line: string, body: string, name: string,
                         key: PublicKey) {
    && SIG_MARKER <= line
    && var split := SplitOnce(line[|SIG_MARKER|..]);
    && split.Some? && split.value.0 == name
    && var blob := codec.decode64(split.value.1);
    && blob.Some? && |blob.value| == 4 + 64 && blob.value[..4] == codec.keyHash(name, key.bytes)
    && VerifySignature(schemes, body, Signature(Ed25519, blob.value[4..]), key) == Ok(true)
  }

  /** The committed fields of a body. */
  function ParseBody(codec: NoteCodec, body: string): Option<Checkpoint> {
    var lines := TextLines(body);
    if |lines| < 3 then None
    else
      match (codec.parseSize(StripReturn(lines[1])), codec.decodeRoot(StripReturn(lines[2])))
      case (Some(size), Some(root)) => Some(Checkpoint(StripReturn(lines[0]), size, root))
      case _ => None
  }

  /** Whether some line from `start` on holds a valid signature. */
  predicate SignedFrom(codec: NoteCodec, schemes: Schemes<string>, lines: seq<string>, start: nat, body: string,
                       name: string, key: PublicKey) {
    exists i :: start <= i < |lines| && ValidSigLine(codec, schemes, lines[i], body, name, key)
  }

  /** Whether some signature line of the note is valid under this name and key. */
  predicate SignedBy(codec: NoteCodec, schemes: Schemes<string>, note: string, name: string, key: PublicKey) {
    && NoteBody(note).Some?
    && SignedFrom(codec, schemes, TextLines(note), SigStart(TextLines(note)).value, NoteBody(note).value, name, key)
  }

  /** The verdict of `verify_checkpoint`. */
  function NoteCheckpoint(codec: NoteCodec, schemes: Schemes<string>, note: string, name: string,
                          key: PublicKey): Option<Checkpoint> {
    if SignedBy(codec, schemes, note, name, key) then ParseBody(codec, NoteBody(note).value) else None
  }

  /** The scan over the signature lines, stopping at the first valid one. */
  method VerifyCheckpoint(codec: NoteCodec, schemes: Schemes<string>, note: string, name: string, key: PublicKey)
      returns (checkpoint: Option<Checkpoint>)
    ensures checkpoint == NoteCheckpoint(codec, schemes, note, name, key)
  {
    var lines := TextLines(note);
    var start := SigStart(lines);
    if start.None? || start.value < 3 { return None; }
    var body := Join(lines[..start.value]) + "\n";
    var verified := false;
    for i := start.value to |lines|
      invariant !verified
      invariant forall j :: start.value <= j < i ==> !ValidSigLine(codec, schemes, lines[j], body, name, key)
    {
      if !(SIG_MARKER <= lines[i]) { continue; }
      var split := SplitOnce(lines[i][|SIG_MARKER|..]);
      if split.None? || split.value.0 != name { continue; }
      var blob := codec.decode64(split.value.1);
      if blob.None? || |blob.value| != 4 + 64 || blob.value[..4] != codec.keyHash(name, key.bytes) { continue; }
      if VerifySignature(schemes, body, Signature(Ed25519, blob.value[4..]), key) == Ok(true) {
        verified := true;
        assert ValidSigLine(codec, schemes, lines[i], body, name, key);
        break;
      }
    }
    if !verified { return None; }
    checkpoint := ParseBody(codec, body);
  }

  /** A signature line over a body, without its line break. */
  function SignedLine(codec: NoteCodec, body: string, signer: Signer<string>, name: string): string
    requires signer.sign(body).Ok?
  {
    SIG_MARKER + name + " " +
    codec.encode64(codec.keyHash(name, signer.publicKey.bytes) + signer.sign(body).value.bytes)
  }

  /** The same with its line break, or the signer's error. */
  function SignatureLine(codec: NoteCodec, body: string, signer: Signer<string>,
                         name: string): Result<string, CryptoError> {
    match signer.sign(body)
    case Err(e) => Err(e)
    case Ok(_) => Ok(SignedLine(codec, body, signer, name) + "\n")
  }

  /** The body text of a checkpoint. */
  function CheckpointBody(codec: NoteCodec, cp: Checkpoint): string {
    cp.origin + "\n" + codec.showSize(cp.size) + "\n" + codec.encodeRoot(cp.root) + "\n"
  }

  function SignCheckpoint(codec: NoteCodec, signer: Signer<string>, name: string,
                          cp: Checkpoint): Result<string, CryptoError> {
    var body := CheckpointBody(codec, cp);
    match SignatureLine(codec, body, signer, name)
    case Err(e) => Err(e)
    case Ok(line) => Ok(body + line)
  }

  /** Every name and key that a note verifies under yields the same checkpoint. */
  lemma NoteCommitsOneCheckpoint(codec: NoteCodec, schemes: Schemes<string>, note: string,
                                 name0: string, key0: PublicKey, name1: string, key1: PublicKey)
    requires NoteCheckpoint(codec, schemes, note, name0, key0).Some?
    requires NoteCheckpoint(codec, schemes, note, name1, key1).Some?
    ensures NoteCheckpoint(codec, schemes, note, name0, key0) == NoteCheckpoint(codec, schemes, note, name1, key1)
  {}

  // Text lemmas

  /** Lines, each followed by a line break. */
  function Lined(lines: seq<string>): string {
    if lines == [] then [] else lines[0] + "\n" + Lined(lines[1..])
  }

  lemma {:induction false} SplitAfterLine(line: string, rest: string)
    requires '\n' !in line
    ensures SplitLines(line + "\n" + rest) == [line] + SplitLines(rest)
  {
    var text := line + "\n" + rest;
    if line == [] {
      assert text[1..] == rest;
    } else {
      var tail := line[1..];
      assert text[0] == line[0] && text[1..] == tail + "\n" + rest;
      SplitAfterLine(tail, rest);
      assert [line[0]] + tail == line;
    }
  }

  lemma {:induction false} SplitOfLined(lines: seq<string>)
    requires forall i :: 0 <= i < |lines| ==> '\n' !in lines[i]
    ensures SplitLines(Lined(lines)) == lines + [[]]
  {
    if lines != [] {
      SplitAfterLine(lines[0], Lined(lines[1..]));
      SplitOfLined(lines[1..]);
      assert [lines[0]] + (lines[1..] + [[]]) == lines + [[]];
    }
  }

  /** Writing lines out and splitting them again gives them back. */
  lemma LinesOfLined(lines: seq<string>)
    requires forall i :: 0 <= i < |lines| ==> '\n' !in lines[i]
    ensures TextLines(Lined(lines)) == lines
  {
    SplitOfLined(lines);
  }

  lemma {:induction false} JoinIsLined(lines: seq<string>)
    requires lines != []
    ensures Join(lines) + "\n" == Lined(lines)
  {
    if |lines| == 1 {
      assert Lined(lines[1..]) == [];
    } else {
      JoinIsLined(lines[1..]);
      assert lines[0] + "\n" + Join(lines[1..]) + "\n" == lines[0] + "\n" + (Join(lines[1..]) + "\n");
    }
  }

  lemma {:induction false} SplitPieces(text: string)
    ensures forall i :: 0 <= i < |SplitLines(text)| ==> '\n' !in SplitLines(text)[i]
  {
    if text != [] {
      SplitPieces(text[1..]);
      var rest := SplitLines(text[1..]);
      forall i | 0 <= i < |SplitLines(text)| ensures '\n' !in SplitLines(text)[i] {
        if i > 0 { assert SplitLines(text)[i] == if text[0] == '\n' then rest[i - 1] else rest[i]; }
      }
    }
  }

  lemma {:induction false} SplitOnceFirst(name: string, rest: string)
    requires ' ' !in name
    ensures SplitOnce(name + " " + rest) == Some((name, rest))
  {
    var text := name + " " + rest;
    if name == [] {
      assert text[1..] == rest;
    } else {
      assert text[0] == name[0] && text[1..] == name[1..] + " " + rest;
      SplitOnceFirst(name[1..], rest);
      assert [name[0]] + name[1..] == name;
    }
  }

  lemma {:induction false} SplitOnceName(text: string)
    requires SplitOnce(text).Some?
    ensures ' ' !in SplitOnce(text).value.0
    ensures text == SplitOnce(text).value.0 + " " + SplitOnce(text).value.1
  {
    if text[0] == ' ' {
      assert text == [] + " " + text[1..];
    } else {
      SplitOnceName(text[1..]);
      var (name, rest) := SplitOnce(text[1..]).value;
      assert text == [text[0]] + (name + " " + rest);
    }
  }

  /** Origins that are one line of a body. */
  predicate OneLine(origin: string) {
    '\n' !in origin && (origin != [] ==> origin[|origin| - 1] != '\r')
  }

  /** Origins that survive the trip through a note. */
  predicate CleanOrigin(origin: string) {
    OneLine(origin) && !(SIG_MARKER <= origin)
  }

  /** Key names that survive it. */
  predicate CleanName(name: string) {
    ' ' !in name && '\n' !in name
  }

  lemma PlainLine(text: string)
    requires Plain(text)
    ensures '\n' !in text && !(SIG_MARKER <= text) && StripReturn(text) == text
  {
    assert SIG_MARKER[0] == '\U{2014}';
    if text != [] { assert text[0] in text; }
  }

  /** A note for a clean origin and name splits into its four lines. */
  lemma {:induction false} NoteLines(origin: string, size: string, root: string, sig: string)
    requires CleanOrigin(origin) && Plain(size) && Plain(root) && '\n' !in sig && SIG_MARKER <= sig
    ensures var body := origin + "\n" + size + "\n" + root + "\n";
            var note := body + sig + "\n";
            && TextLines(note) == [origin, size, root, sig] && SigStart(TextLines(note)) == Some(3)
            && NoteBody(note) == Some(body) && TextLines(body) == [origin, size, root]
  {
    var body := origin + "\n" + size + "\n" + root + "\n";
    var note := body + sig + "\n";
    var head := [origin, size, root];
    LinedThree(origin, size, root);
    LinedFour(origin, size, root, sig);
    PlainLine(size);
    PlainLine(root);
    LinesOfLined(head);
    LinesOfLined(head + [sig]);
    var lines := TextLines(note);
    assert lines == [origin, size, root, sig];
    assert !(SIG_MARKER <= lines[0]) && !(SIG_MARKER <= lines[1]) && !(SIG_MARKER <= lines[2]) &&
           SIG_MARKER <= lines[3];
    SigStartFirst(lines);
    assert lines[..3] == head;
    JoinIsLined(head);
  }

  lemma LinedThree(a: string, b: string, c: string)
    ensures Lined([a, b, c]) == a + "\n" + b + "\n" + c + "\n"
  {
    assert Lined([c]) == c + "\n";
    assert [a, b, c][1..] == [b, c] && [b, c][1..] == [c];
    assert Lined([b, c]) == b + "\n" + (c + "\n");
    assert Lined([a, b, c]) == a + "\n" + (b + "\n" + (c + "\n"));
  }

  lemma LinedFour(a: string, b: string, c: string, d: string)
    ensures Lined([a, b, c] + [d]) == a + "\n" + b + "\n" + c + "\n" + d + "\n"
  {
    LinedThree(b, c, d);
    assert ([a, b, c] + [d])[1..] == [b, c, d];
    assert Lined([a, b, c] + [d]) == a + "\n" + (b + "\n" + c + "\n" + d + "\n");
  }

  /** The body holds exactly the note's lines before the first signature. */
  lemma {:induction false} BodyLines(note: string)
    requires NoteBody(note).Some?
    ensures var lines := TextLines(note);
            TextLines(NoteBody(note).value) == lines[..SigStart(lines).value]
    ensures forall i :: 0 <= i < |TextLines(note)| ==> '\n' !in TextLines(note)[i]
  {
    SplitPieces(note);
    var lines := TextLines(note);
    var head := lines[..SigStart(lines).value];
    JoinIsLined(head);
    LinesOfLined(head);
  }

  lemma {:induction false} FirstLine(origin: string, rest: string)
    requires '\n' !in origin && rest != []
    ensures TextLines(origin + "\n" + rest)[0] == origin
  {
    SplitAfterLine(origin, rest);
    assert |SplitLines(rest)| == 1 ==> SplitLines(rest)[0] != [] by { if |SplitLines(rest)| == 1 { OnePiece(rest); } }
  }

  lemma {:induction false} OnePiece(text: string)
    requires |SplitLines(text)| == 1
    ensures SplitLines(text)[0] == text
  {
    if text != [] {
      OnePiece(text[1..]);
      assert [text[0]] + text[1..] == text;
    }
  }

  /** MAIN RESULT. A signed checkpoint reads back as exactly what was signed if and only if
      its origin and key name are clean: no line break in either, no space in the name, and
      an origin that neither opens with the signature marker nor ends in a carriage return. */
  lemma NoteRoundTrip(codec: NoteCodec, schemes: Schemes<string>, signer: Signer<string>,
                      name: string, cp: Checkpoint, note: string)
    requires GoodCodec(codec) && Genuine(schemes, signer) && cp.size < WORD
    requires forall m :: signer.sign(m).Ok? ==>
             |signer.sign(m).value.bytes| == 64 && signer.sign(m).value.algorithm == Ed25519
    requires SignCheckpoint(codec, signer, name, cp) == Ok(note)
    ensures NoteCheckpoint(codec, schemes, note, name, signer.publicKey) == Some(cp) <==>
            CleanOrigin(cp.origin) && CleanName(name)
  {
    if CleanOrigin(cp.origin) && CleanName(name) {
      CleanNoteReads(codec, schemes, signer, name, cp, note);
    }
    if NoteCheckpoint(codec, schemes, note, name, signer.publicKey) == Some(cp) {
      ReadNoteIsClean(codec, schemes, signer, name, cp, note);
    }
  }

  lemma {:induction false} CleanNoteReads(codec: NoteCodec, schemes: Schemes<string>, signer: Signer<string>,
                                          name: string, cp: Checkpoint, note: string)
    requires GoodCodec(codec) && Genuine(schemes, signer) && cp.size < WORD
    requires forall m :: signer.sign(m).Ok? ==>
             |signer.sign(m).value.bytes| == 64 && signer.sign(m).value.algorithm == Ed25519
    requires SignCheckpoint(codec, signer, name, cp) == Ok(note) && CleanOrigin(cp.origin) && CleanName(name)
    ensures NoteCheckpoint(codec, schemes, note, name, signer.publicKey) == Some(cp)
  {
    var size, root := codec.showSize(cp.size), codec.encodeRoot(cp.root);
    var body := CheckpointBody(codec, cp);
    var line := SignedLine(codec, body, signer, name);
    assert note == body + line + "\n";
    SignedLineValid(codec, schemes, body, signer, name);
    NoteLines(cp.origin, size, root, line);
    assert TextLines(note)[3] == line;
    BodyRoundTrip(codec, cp);
  }

  lemma SignedLineValid(codec: NoteCodec, schemes: Schemes<string>, body: string, signer: Signer<string>, name: string)
    requires GoodCodec(codec) && Genuine(schemes, signer) && CleanName(name) && signer.sign(body).Ok?
    requires |signer.sign(body).value.bytes| == 64 && signer.sign(body).value.algorithm == Ed25519
    ensures '\n' !in SignedLine(codec, body, signer, name)
    ensures ValidSigLine(codec, schemes, SignedLine(codec, body, signer, name), body, name, signer.publicKey)
  {
    var sig, hash := signer.sign(body).value, codec.keyHash(name, signer.publicKey.bytes);
    var encoded := codec.encode64(hash + sig.bytes);
    var line := SignedLine(codec, body, signer, name);
    assert line[|SIG_MARKER|..] == name + " " + encoded;
    SplitOnceFirst(name, encoded);
    assert (hash + sig.bytes)[..4] == hash && (hash + sig.bytes)[4..] == sig.bytes;
    assert Signature(Ed25519, sig.bytes) == sig;
    assert SIG_MARKER <= line;
  }

  lemma ReadNoteIsClean(codec: NoteCodec, schemes: Schemes<string>, signer: Signer<string>, name: string,
                        cp: Checkpoint, note: string)
    requires SignCheckpoint(codec, signer, name, cp) == Ok(note)
    requires NoteCheckpoint(codec, schemes, note, name, signer.publicKey) == Some(cp)
    ensures CleanOrigin(cp.origin) && CleanName(name)
  {
    BodyLines(note);
    var lines, body := TextLines(note), NoteBody(note).value;
    var i :| SigStart(lines).value <= i < |lines| &&
             ValidSigLine(codec, schemes, lines[i], body, name, signer.publicKey);
    assert CleanName(name) by { NameIsClean(codec, schemes, lines[i], body, name, signer.publicKey); }
    assert cp.origin == StripReturn(lines[0]) && !(SIG_MARKER <= lines[0]);
    var rest := NoteAfterOrigin(codec, signer, name, cp, note);
    OriginIsClean(cp.origin, lines, rest, note);
  }

  lemma NoteAfterOrigin(codec: NoteCodec, signer: Signer<string>, name: string, cp: Checkpoint, note: string)
      returns (rest: string)
    requires SignCheckpoint(codec, signer, name, cp) == Ok(note)
    ensures rest != [] && note == cp.origin + "\n" + rest
  {
    var size, root := codec.showSize(cp.size), codec.encodeRoot(cp.root);
    var line := SignatureLine(codec, CheckpointBody(codec, cp), signer, name).value;
    rest := size + "\n" + root + "\n" + line;
  }

  lemma OriginIsClean(origin: string, lines: seq<string>, rest: string, note: string)
    requires rest != [] && note == origin + "\n" + rest && lines == TextLines(note)
    requires lines != [] && '\n' !in lines[0] && !(SIG_MARKER <= lines[0]) && origin == StripReturn(lines[0])
    ensures CleanOrigin(origin)
  {
    assert '\n' !in origin;
    FirstLine(origin, rest);
  }

  lemma NameIsClean(codec: NoteCodec, schemes: Schemes<string>, line: string, body: string, name: string,
                    key: PublicKey)
    requires ValidSigLine(codec, schemes, line, body, name, key) && '\n' !in line
    ensures CleanName(name)
  {
    var text := line[|SIG_MARKER|..];
    SplitOnceName(text);
    var rest := SplitOnce(text).value.1;
    forall i | 0 <= i < |name| ensures name[i] in line {
      assert text[i] == name[i];
      assert line[|SIG_MARKER| + i] == text[i];
    }
  }

  lemma OneLineReads(codec: NoteCodec, cp: Checkpoint)
    requires GoodCodec(codec) && cp.size < WORD && OneLine(cp.origin)
    ensures ParseBody(codec, CheckpointBody(codec, cp)) == Some(cp)
  {
    var size, root := codec.showSize(cp.size), codec.encodeRoot(cp.root);
    PlainLine(size);
    PlainLine(root);
    LinedThree(cp.origin, size, root);
    LinesOfLined([cp.origin, size, root]);
  }

  lemma ReadsOneLine(codec: NoteCodec, cp: Checkpoint)
    requires ParseBody(codec, CheckpointBody(codec, cp)) == Some(cp)
    ensures OneLine(cp.origin)
  {
    var size, root, body := codec.showSize(cp.size), codec.encodeRoot(cp.root), CheckpointBody(codec, cp);
    SplitPieces(body);
    assert body == cp.origin + "\n" + (size + "\n" + root + "\n");
    FirstLine(cp.origin, size + "\n" + root + "\n");
  }

  /** A body reads back as the checkpoint it was written for exactly when the origin is one line. */
  lemma BodyRoundTrip(codec: NoteCodec, cp: Checkpoint)
    requires GoodCodec(codec) && cp.size < WORD
    ensures ParseBody(codec, CheckpointBody(codec, cp)) == Some(cp) <==> OneLine(cp.origin)
  {
    if OneLine(cp.origin) { OneLineReads(codec, cp); }
    if ParseBody(codec, CheckpointBody(codec, cp)) == Some(cp) { ReadsOneLine(codec, cp); }
  }

  lemma {:induction false} LinedConcat(front: seq<string>, more: seq<string>)
    ensures Lined(front + more) == Lined(front) + Lined(more)
  {
    if front == [] {
      assert front + more == more && [] + Lined(more) == Lined(more);
    } else {
      assert (front + more)[1..] == front[1..] + more;
      LinedConcat(front[1..], more);
      assert front[0] + "\n" + (Lined(front[1..]) + Lined(more)) == front[0] + "\n" + Lined(front[1..]) + Lined(more);
    }
  }

  lemma {:induction false} LinedSnoc(head: seq<string>, line: string)
    ensures Lined(head + [line]) == Lined(head) + (line + "\n")
  {
    LinedConcat(head, [line]);
    assert Lined([line]) == line + "\n" + Lined([]);
  }

  lemma LinedTwo(a: string, b: string)
    ensures Lined([a, b]) == a + "\n" + b + "\n"
  {
    assert [a, b][1..] == [b] && Lined([b]) == b + "\n" + Lined([]);
    assert a + "\n" + (b + "\n") == a + "\n" + b + "\n";
  }

  /** Text lines under one signature line make a note with those lines as its body. */
  lemma {:induction false} NoteOfLines(head: seq<string>, line: string)
    requires 3 <= |head| && '\n' !in line && SIG_MARKER <= line
    requires forall i :: 0 <= i < |head| ==> '\n' !in head[i] && !(SIG_MARKER <= head[i])
    ensures var note := Lined(head) + (line + "\n");
            && TextLines(note) == head + [line] && SigStart(TextLines(note)) == Some(|head|)
            && NoteBody(note) == Some(Lined(head))
  {
    var lines := head + [line];
    assert TextLines(Lined(head) + (line + "\n")) == lines by {
      LinedSnoc(head, line);
      LinesOfLined(lines);
    }
    SigStartIs(lines, |head|);
    JoinIsLined(head);
    assert lines[..|head|] == head;
  }

  /** An origin that spells out a whole body of its own. */
  function OriginOf(codec: NoteCodec, inner: Checkpoint): string {
    inner.origin + "\n" + codec.showSize(inner.size) + "\n" + codec.encodeRoot(inner.root)
  }

  lemma BrokenBodyLines(codec: NoteCodec, inner: Checkpoint, size: nat, root: Digest)
      returns (head: seq<string>)
    requires GoodCodec(codec) && inner.size < WORD && size < WORD && '\n' !in inner.origin
    ensures CheckpointBody(codec, Checkpoint(OriginOf(codec, inner), size, root)) == Lined(head)
    ensures head == [inner.origin, codec.showSize(inner.size), codec.encodeRoot(inner.root),
                     codec.showSize(size), codec.encodeRoot(root)]
    ensures forall i :: 1 <= i < |head| ==> Plain(head[i])
  {
    var front, more := [inner.origin, codec.showSize(inner.size), codec.encodeRoot(inner.root)],
                       [codec.showSize(size), codec.encodeRoot(root)];
    head := front + more;
    LinedConcat(front, more);
    LinedThree(front[0], front[1], front[2]);
    LinedTwo(more[0], more[1]);
    assert CheckpointBody(codec, Checkpoint(OriginOf(codec, inner), size, root)) ==
           front[0] + "\n" + front[1] + "\n" + front[2] + "\n" + (more[0] + "\n" + more[1] + "\n");
  }

  /** An origin that holds line breaks is read as further fields: this body, written for one size
      and root, commits to another checkpoint. */
  lemma BrokenOriginReadsAsFields(codec: NoteCodec, inner: Checkpoint, size: nat, root: Digest)
    requires GoodCodec(codec) && inner.size < WORD && size < WORD && OneLine(inner.origin)
    ensures ParseBody(codec, CheckpointBody(codec, Checkpoint(OriginOf(codec, inner), size, root))) == Some(inner)
  {
    var head := BrokenBodyLines(codec, inner, size, root);
    PlainLine(head[1]);
    PlainLine(head[2]);
    PlainLine(head[3]);
    PlainLine(head[4]);
    LinesOfLined(head);
  }

  /** So a signature made for one checkpoint is a signature on another: under any clean name, the
      signed body with its signature line is a note that reads back as the other checkpoint. */
  lemma BrokenOriginSignsOther(codec: NoteCodec, schemes: Schemes<string>, inner: Checkpoint, size: nat, root: Digest,
                               signer: Signer<string>, name: string)
    requires GoodCodec(codec) && Genuine(schemes, signer) && NoteSigner(signer) && CleanName(name)
    requires inner.size < WORD && size < WORD && CleanOrigin(inner.origin)
    ensures var body := CheckpointBody(codec, Checkpoint(OriginOf(codec, inner), size, root));
            var note := body + (SignedLine(codec, body, signer, name) + "\n");
            NoteCheckpoint(codec, schemes, note, name, signer.publicKey) == Some(inner)
  {
    var head := BrokenBodyLines(codec, inner, size, root);
    var body := Lined(head);
    var line := SignedLine(codec, body, signer, name);
    forall i | 0 <= i < |head| ensures '\n' !in head[i] && !(SIG_MARKER <= head[i]) {
      if i > 0 { PlainLine(head[i]); }
    }
    SignedLineValid(codec, schemes, body, signer, name);
    NoteOfLines(head, line);
    assert TextLines(body + (line + "\n"))[|head|] == line;
    BrokenOriginReadsAsFields(codec, inner, size, root);
  }

  /** Two lists of pieces with the last of the first run into the first of the second. */
  function Joined(pieces: seq<string>, next: seq<string>): seq<string>
    requires pieces != [] && next != []
  {
    pieces[..|pieces| - 1] + ([pieces[|pieces| - 1] + next[0]] + next[1..])
  }

  lemma AttachFront(c: char, front: seq<string>, rest: seq<string>)
    requires front != []
    ensures Attach(c, front + rest) == Attach(c, front) + rest
  {
    assert (front + rest)[1..] == front[1..] + rest;
  }

  lemma JoinedSnoc(front: seq<string>, last: string, next: seq<string>)
    requires next != []
    ensures Joined(front + [last], next) == front + ([last + next[0]] + next[1..])
  {
    assert (front + [last])[..|front|] == front;
  }

  lemma AttachOne(c: char, last: string, next: seq<string>)
    requires next != []
    ensures Attach(c, Joined([last], next)) == Joined(Attach(c, [last]), next)
  {
    JoinedSnoc([], last, next);
    assert [] + [last] == [last];
    if c == '\n' {
      JoinedSnoc([[]], last, next);
    } else {
      JoinedSnoc([], [c] + last, next);
      assert [] + [[c] + last] == [[c] + last];
      assert [c] + (last + next[0]) == ([c] + last) + next[0];
    }
  }

  lemma AttachJoined(c: char, pieces: seq<string>, next: seq<string>)
    requires pieces != [] && next != []
    ensures Attach(c, Joined(pieces, next)) == Joined(Attach(c, pieces), next)
  {
    var front, last := pieces[..|pieces| - 1], pieces[|pieces| - 1];
    assert pieces == front + [last];
    if front == [] {
      AttachOne(c, last, next);
    } else {
      JoinedSnoc(front, last, next);
      AttachFront(c, front, [last + next[0]] + next[1..]);
      AttachFront(c, front, [last]);
      JoinedSnoc(Attach(c, front), last, next);
    }
  }

  /** Splitting a text in two joins the last line of the first to the first line of the second. */
  lemma {:induction false} SplitConcat(text: string, more: string)
    ensures SplitLines(text + more) == Joined(SplitLines(text), SplitLines(more))
  {
    if text == [] {
      assert text + more == more && [] + SplitLines(more)[0] == SplitLines(more)[0];
    } else {
      SplitConcat(text[1..], more);
      assert (text + more)[1..] == text[1..] + more && (text + more)[0] == text[0];
      AttachJoined(text[0], SplitLines(text[1..]), SplitLines(more));
    }
  }

  /** The last piece is empty exactly when the text ends in a line break, or is empty itself. */
  lemma {:induction false} LastPiece(text: string)
    ensures SplitLines(text)[|SplitLines(text)| - 1] == [] <==> text == [] || Terminated(text)
  {
    if text != [] { LastPiece(text[1..]); }
  }

  lemma {:induction false} OneLineSplits(line: string)
    requires '\n' !in line
    ensures SplitLines(line) == [line]
  {
    if line != [] {
      OneLineSplits(line[1..]);
      assert [line[0]] + line[1..] == line;
    }
  }

  lemma {:induction false} SigStartIs(lines: seq<string>, start: nat)
    requires start < |lines| && SIG_MARKER <= lines[start]
    requires forall i :: 0 <= i < start ==> !(SIG_MARKER <= lines[i])
    ensures SigStart(lines) == Some(start)
  {
    if start > 0 { SigStartIs(lines[1..], start - 1); }
  }

  // What is read

  /** A line is the marker, the name, a space and the base64 text of the key hash and a signature
      of 64 bytes that verifies over the body. */
  ghost predicate HoldsSignature(codec: NoteCodec, schemes: Schemes<string>, line: string, body: string, name: string,
                                 key: PublicKey, text: string, bytes: seq<Byte>) {
    && line == SIG_MARKER + name + " " + text
    && codec.decode64(text) == Some(codec.keyHash(name, key.bytes) + bytes) && |bytes| == 64
    && VerifySignature(schemes, body, Signature(Ed25519, bytes), key) == Ok(true)
  }

  /** A line counts for a name and key exactly when it is such a line, and the name has no space. */
  lemma SigLineExact(codec: NoteCodec, schemes: Schemes<string>, line: string, body: string, name: string,
                     key: PublicKey)
    requires GoodCodec(codec)
    ensures ValidSigLine(codec, schemes, line, body, name, key) <==>
            ' ' !in name && exists text, bytes :: HoldsSignature(codec, schemes, line, body, name, key, text, bytes)
  {
    var hash := codec.keyHash(name, key.bytes);
    if ValidSigLine(codec, schemes, line, body, name, key) {
      var rest := line[|SIG_MARKER|..];
      SplitOnceName(rest);
      var text := SplitOnce(rest).value.1;
      var blob := codec.decode64(text).value;
      assert blob == hash + blob[4..] && line == SIG_MARKER + rest;
      assert SIG_MARKER + (name + " " + text) == SIG_MARKER + name + " " + text;
      assert HoldsSignature(codec, schemes, line, body, name, key, text, blob[4..]);
    }
    forall text, bytes | ' ' !in name && HoldsSignature(codec, schemes, line, body, name, key, text, bytes)
      ensures ValidSigLine(codec, schemes, line, body, name, key)
    {
      assert line[|SIG_MARKER|..] == name + " " + text;
      SplitOnceFirst(name, text);
      assert (hash + bytes)[..4] == hash && (hash + bytes)[4..] == bytes;
    }
  }

  /** What is above the first line that starts with the marker: at least three lines. */
  predicate Above(lines: seq<string>, start: nat) {
    && 3 <= start < |lines| && "\U{2014} " <= lines[start]
    && forall i :: 0 <= i < start ==> !("\U{2014} " <= lines[i])
  }

  /** A note has a body exactly when some line starts with the marker and the first one to do so has
      three lines above it; the body is those lines, each ended by a line break. */
  lemma BodyOfNote(note: string, start: nat)
    ensures NoteBody(note).Some? <==> exists n :: Above(TextLines(note), n)
    ensures Above(TextLines(note), start) ==> NoteBody(note) == Some(Lined(TextLines(note)[..start]))
  {
    var lines := TextLines(note);
    SigStartFirst(lines);
    if NoteBody(note).Some? { assert Above(lines, SigStart(lines).value); }
    if Above(lines, start) { JoinIsLined(lines[..start]); }
  }

  /** Line `i` of a note, one of those from the first marked line on, is a signature under this name
      and key over the lines above that one. */
  ghost predicate SignatureHeld(codec: NoteCodec, schemes: Schemes<string>, lines: seq<string>, start: nat, i: nat,
                                name: string, key: PublicKey, text: string, bytes: seq<Byte>) {
    && Above(lines, start) && start <= i < |lines|
    && HoldsSignature(codec, schemes, lines[i], Lined(lines[..start]), name, key, text, bytes)
  }

  /** Such a line is one that the scan counts. */
  lemma {:induction false} HeldIsCounted(codec: NoteCodec, schemes: Schemes<string>, note: string, start: nat, i: nat,
                                         name: string, key: PublicKey, text: string, bytes: seq<Byte>)
    requires GoodCodec(codec) && ' ' !in name
    requires SignatureHeld(codec, schemes, TextLines(note), start, i, name, key, text, bytes)
    ensures NoteCheckpoint(codec, schemes, note, name, key) == ParseBody(codec, Lined(TextLines(note)[..start]))
  {
    var lines := TextLines(note);
    SigStartFirst(lines);
    BodyOfNote(note, start);
    SigLineExact(codec, schemes, lines[i], Lined(lines[..start]), name, key);
  }

  /** A note that is accepted has such a line. */
  lemma {:induction false} CountedIsHeld(codec: NoteCodec, schemes: Schemes<string>, note: string, name: string,
                                         key: PublicKey)
      returns (start: nat, i: nat, text: string, bytes: seq<Byte>)
    requires GoodCodec(codec) && NoteCheckpoint(codec, schemes, note, name, key).Some?
    ensures ' ' !in name && SignatureHeld(codec, schemes, TextLines(note), start, i, name, key, text, bytes)
  {
    var lines := TextLines(note);
    SigStartFirst(lines);
    start := SigStart(lines).value;
    BodyOfNote(note, start);
    i :| start <= i < |lines| && ValidSigLine(codec, schemes, lines[i], NoteBody(note).value, name, key);
    SigLineExact(codec, schemes, lines[i], Lined(lines[..start]), name, key);
    text, bytes :| HoldsSignature(codec, schemes, lines[i], Lined(lines[..start]), name, key, text, bytes);
  }

  /** MAIN RESULT. Whatever the note, it is accepted for a name and key exactly when the name has no
      space, some line from the first marked one on is a signature of that form over the lines above,
      and those lines are a checkpoint body; the checkpoint is the one they say. */
  lemma {:induction false} AcceptedNoteExact(codec: NoteCodec, schemes: Schemes<string>, note: string, name: string,
                                             key: PublicKey, cp: Checkpoint)
    requires GoodCodec(codec)
    ensures NoteCheckpoint(codec, schemes, note, name, key) == Some(cp) <==>
            && ' ' !in name
            && exists start: nat, i: nat, text, bytes ::
                 && SignatureHeld(codec, schemes, TextLines(note), start, i, name, key, text, bytes)
                 && ParseBody(codec, Lined(TextLines(note)[..start])) == Some(cp)
  {
    if NoteCheckpoint(codec, schemes, note, name, key) == Some(cp) {
      var start, i, text, bytes := CountedIsHeld(codec, schemes, note, name, key);
      HeldIsCounted(codec, schemes, note, start, i, name, key, text, bytes);
    }
    forall start: nat, i: nat, text, bytes |
      ' ' !in name && SignatureHeld(codec, schemes, TextLines(note), start, i, name, key, text, bytes)
      ensures NoteCheckpoint(codec, schemes, note, name, key) == ParseBody(codec, Lined(TextLines(note)[..start]))
    {
      HeldIsCounted(codec, schemes, note, start, i, name, key, text, bytes);
    }
  }

  /** Line feeds after carriage returns are read like plain ones. */
  lemma CarriageReturnsDropped(codec: NoteCodec, cp: Checkpoint)
    requires GoodCodec(codec) && cp.size < WORD && '\n' !in cp.origin
    ensures var size, root := codec.showSize(cp.size), codec.encodeRoot(cp.root);
            ParseBody(codec, Returned(cp.origin) + Returned(size) + Returned(root)) == Some(cp)
  {
    var size, root := codec.showSize(cp.size), codec.encodeRoot(cp.root);
    PlainLine(size);
    PlainLine(root);
    var lines := [cp.origin + "\r", size + "\r", root + "\r"];
    ReturnedLines(cp.origin, size, root);
    LinesOfLined(lines);
    StripAdded(cp.origin);
    StripAdded(size);
    StripAdded(root);
  }

  /** A line ended by a carriage return and a line feed. */
  function Returned(line: string): string {
    line + "\r" + "\n"
  }

  lemma StripAdded(line: string)
    ensures StripReturn(line + "\r") == line
  {}

  lemma {:induction false} ReturnedLines(a: string, b: string, c: string)
    ensures Returned(a) + Returned(b) + Returned(c) == Lined([a + "\r", b + "\r", c + "\r"])
  {
    LinedThree(a + "\r", b + "\r", c + "\r");
    Regroup(a + "\r", b + "\r", c + "\r");
  }

  lemma Regroup(a: string, b: string, c: string)
    ensures a + "\n" + (b + "\n") + (c + "\n") == a + "\n" + b + "\n" + c + "\n"
  {}

  // Cosigning

  predicate Terminated(note: string) {
    note != [] && note[|note| - 1] == '\n'
  }

  /** The lines that cosigning leaves as they are: all lines of a note that ends in a line break,
      all but the last of any other note. */
  function KeptLines(note: string): seq<string> {
    var lines := TextLines(note);
    if Terminated(note) || lines == [] then lines else lines[..|lines| - 1]
  }

  /** The lines that come of appending a signature line: it runs on from an unterminated last line. */
  function AddedLines(note: string, line: string): seq<string> {
    var lines, pieces := TextLines(note), SplitLines(line);
    if Terminated(note) || lines == [] then pieces else [lines[|lines| - 1] + pieces[0]] + pieces[1..]
  }

  /** Signed by a line that cosigning leaves as it is. */
  predicate SignedAbove(codec: NoteCodec, schemes: Schemes<string>, note: string, name: string, key: PublicKey) {
    && NoteBody(note).Some?
    && SignedFrom(codec, schemes, KeptLines(note), SigStart(TextLines(note)).value, NoteBody(note).value, name, key)
  }

  lemma SignedFromConcat(codec: NoteCodec, schemes: Schemes<string>, front: seq<string>, more: seq<string>, start: nat,
                         body: string, name: string, key: PublicKey)
    requires start <= |front|
    ensures SignedFrom(codec, schemes, front + more, start, body, name, key) <==>
            || SignedFrom(codec, schemes, front, start, body, name, key)
            || SignedFrom(codec, schemes, more, 0, body, name, key)
  {
    var lines := front + more;
    forall i | 0 <= i < |front| ensures lines[i] == front[i] {}
    forall i | 0 <= i < |more| ensures lines[|front| + i] == more[i] {}
    if SignedFrom(codec, schemes, lines, start, body, name, key) {
      var i :| start <= i < |lines| && ValidSigLine(codec, schemes, lines[i], body, name, key);
      if i >= |front| { assert more[i - |front|] == lines[i]; }
    }
  }

  /** A terminated note keeps every line, so all its signatures are above. */
  lemma SignedByAbove(codec: NoteCodec, schemes: Schemes<string>, note: string, name: string, key: PublicKey)
    requires Terminated(note)
    ensures SignedAbove(codec, schemes, note, name, key) <==> SignedBy(codec, schemes, note, name, key)
  {}

  lemma {:induction false} BrokenLineSplits(line: string)
    ensures SplitLines(line + "\n") == SplitLines(line) + [[]]
  {
    SplitConcat(line, "\n");
    BreakSplits();
    JoinedBreak(SplitLines(line));
  }

  lemma {:induction false} BreakSplits()
    ensures SplitLines("\n") == [[], []]
  {
    assert "\n"[1..] == [];
  }

  lemma JoinedBreak(pieces: seq<string>)
    requires pieces != []
    ensures Joined(pieces, [[], []]) == pieces + [[]]
  {
    assert pieces[|pieces| - 1] + [] == pieces[|pieces| - 1];
  }

  /** Pieces joined to a line that is itself broken off: the join, then an empty piece. */
  lemma JoinedToBroken(pieces: seq<string>, next: seq<string>)
    requires pieces != [] && next != []
    ensures Joined(pieces, next + [[]]) == Joined(pieces, next) + [[]]
  {}

  /** The join seen as lines kept and lines added. */
  lemma JoinedLines(pieces: seq<string>, next: seq<string>)
    requires pieces != [] && next != []
    ensures var lines := DropEmptyEnd(pieces);
            Joined(pieces, next) ==
            if pieces[|pieces| - 1] == [] then lines + next
            else lines[..|lines| - 1] + ([lines[|lines| - 1] + next[0]] + next[1..])
  {
    if pieces[|pieces| - 1] == [] { assert [] + next[0] == next[0]; }
  }

  lemma {:induction false} CosignedLines(note: string, line: string)
    requires TextLines(note) != []
    ensures TextLines(note + (line + "\n")) == KeptLines(note) + AddedLines(note, line)
  {
    var pieces, next := SplitLines(note), SplitLines(line);
    assert SplitLines(note + (line + "\n")) == Joined(pieces, next) + [[]] by {
      BrokenLineSplits(line);
      SplitConcat(note, line + "\n");
      JoinedToBroken(pieces, next);
    }
    LastPiece(note);
    JoinedLines(pieces, next);
  }

  /** Lines may be added, and the last one run on, without moving the first signature line. */
  lemma {:induction false} StartStays(lines: seq<string>, kept: seq<string>, added: seq<string>, start: nat)
    requires SigStart(lines) == Some(start)
    requires kept == lines || (lines != [] && kept == lines[..|lines| - 1] && added != []
                               && lines[|lines| - 1] <= added[0])
    ensures SigStart(kept + added) == Some(start) && start <= |kept|
    ensures (kept + added)[..start] == lines[..start]
  {
    SigStartFirst(lines);
    assert forall i :: 0 <= i < |kept| ==> (kept + added)[i] == lines[i];
    SigStartIs(kept + added, start);
  }

  /** Cosigning keeps the body and the place of the first signature line. */
  lemma {:induction false} CosignedBody(note: string, line: string)
    requires NoteBody(note).Some?
    ensures NoteBody(note + (line + "\n")) == NoteBody(note)
    ensures TextLines(note + (line + "\n")) == KeptLines(note) + AddedLines(note, line)
    ensures SigStart(TextLines(note + (line + "\n"))) == SigStart(TextLines(note))
    ensures SigStart(TextLines(note)).value <= |KeptLines(note)|
  {
    CosignedLines(note, line);
    StartStays(TextLines(note), KeptLines(note), AddedLines(note, line), SigStart(TextLines(note)).value);
  }

  /** A signature line that runs on from another line is no signature: what follows its first
      space holds another one, which base64 does not. */
  lemma GluedInvalid(codec: NoteCodec, schemes: Schemes<string>, last: string, name: string, encoded: string,
                     body: string, otherName: string, otherKey: PublicKey)
    requires GoodCodec(codec) && last != []
    ensures !ValidSigLine(codec, schemes, last + (SIG_MARKER + name + " " + encoded), body, otherName, otherKey)
  {
    var line := SIG_MARKER + name + " " + encoded;
    var glued := last + line;
    if SIG_MARKER <= glued && SplitOnce(glued[|SIG_MARKER|..]).Some? {
      GluedMarker(last, line);
      var text := glued[|SIG_MARKER|..];
      SplitOnceName(text);
      var (first, rest) := SplitOnce(text).value;
      var marker := |last| - 2;
      assert text[marker + 1] == line[1] == ' ' && text[marker + 2 + |name|] == line[2 + |name|] == ' ';
      SpaceInRest(text, first, rest, marker + 1, marker + 2 + |name|);
    }
  }

  lemma GluedMarker(last: string, line: string)
    requires last != [] && SIG_MARKER <= line && SIG_MARKER <= last + line
    ensures |last| >= 2
  {
    assert (last + line)[|last|] == line[0] == SIG_MARKER[0];
    assert (last + line)[1] == SIG_MARKER[1];
  }

  lemma SpaceInRest(text: string, first: string, rest: string, p: nat, q: nat)
    requires text == first + " " + rest && ' ' !in first
    requires p < q < |text| && text[p] == ' ' && text[q] == ' '
    ensures ' ' in rest
  {
    assert forall i :: 0 <= i < |first| ==> text[i] == first[i];
    assert text[q] == rest[q - |first| - 1];
  }

  /** The signers of notes: Ed25519 signs every body, in 64 bytes. */
  ghost predicate NoteSigner(signer: Signer<string>) {
    forall body :: && signer.sign(body).Ok? && |signer.sign(body).value.bytes| == 64
                   && signer.sign(body).value.algorithm == Ed25519
  }

  /** What cosigning adds under a name without line breaks: one line, which can verify only if
      the note ended in a line break. */
  lemma AddedSigned(codec: NoteCodec, schemes: Schemes<string>, note: string, signer: Signer<string>, name: string,
                    body: string, otherName: string, otherKey: PublicKey)
    requires GoodCodec(codec) && Genuine(schemes, signer) && NoteSigner(signer)
    requires NoteBody(note).Some? && '\n' !in name
    ensures var line := SignedLine(codec, body, signer, name);
            SignedFrom(codec, schemes, AddedLines(note, line), 0, body, otherName, otherKey) <==>
            Terminated(note) && ValidSigLine(codec, schemes, line, body, otherName, otherKey)
  {
    var encoded := codec.encode64(codec.keyHash(name, signer.publicKey.bytes) + signer.sign(body).value.bytes);
    var line := SignedLine(codec, body, signer, name);
    OneAddedLine(note, line);
    if Terminated(note) {
      OnlyLine(codec, schemes, AddedLines(note, line), line, body, otherName, otherKey);
    } else {
      var last := LastLine(note);
      UnterminatedLast(note);
      OnlyLine(codec, schemes, AddedLines(note, line), last + line, body, otherName, otherKey);
      GluedInvalid(codec, schemes, last, name, encoded, body, otherName, otherKey);
    }
  }

  function LastLine(note: string): string
    requires TextLines(note) != []
  {
    TextLines(note)[|TextLines(note)| - 1]
  }

  lemma {:induction false} OneAddedLine(note: string, line: string)
    requires TextLines(note) != [] && '\n' !in line
    ensures AddedLines(note, line) == if Terminated(note) then [line] else [LastLine(note) + line]
  {
    assert SplitLines(line) == [line] by { OneLineSplits(line); }
  }

  lemma {:induction false} UnterminatedLast(note: string)
    requires TextLines(note) != [] && !Terminated(note)
    ensures LastLine(note) != []
  {
    LastPiece(note);
  }

  lemma OnlyLine(codec: NoteCodec, schemes: Schemes<string>, lines: seq<string>, line: string, body: string,
                 name: string, key: PublicKey)
    requires lines == [line]
    ensures SignedFrom(codec, schemes, lines, 0, body, name, key) <==>
            ValidSigLine(codec, schemes, line, body, name, key)
  {
    assert lines[0] == line;
  }

  /** No line of a text is a signature under a name that no line can hold. */
  lemma UncleanNeverSigns(codec: NoteCodec, schemes: Schemes<string>, text: string, start: nat, body: string,
                          name: string, key: PublicKey)
    requires SignedFrom(codec, schemes, TextLines(text), start, body, name, key)
    ensures CleanName(name)
  {
    var lines := TextLines(text);
    var i :| start <= i < |lines| && ValidSigLine(codec, schemes, lines[i], body, name, key);
    SplitPieces(text);
    NameIsClean(codec, schemes, lines[i], body, name, key);
  }

  /** Adds a cosignature to a note, if it is one. */
  function Cosign(codec: NoteCodec, note: string, signer: Signer<string>, name: string): Option<string> {
    match NoteBody(note)
    case None => None
    case Some(body) =>
      match SignatureLine(codec, body, signer, name)
      case Err(_) => None
      case Ok(line) => Some(note + line)
  }

  /** MAIN RESULT. Cosigning succeeds on every note that has a body and keeps the body. The new
      signature verifies exactly when the note ends in a line break and the name is clean, or a
      line above already verified under that name and key. For any other name and key the result
      carries the signatures above the last line, and those on the lines the appended text makes:
      for a name without line breaks that is the new line, if the note ended in a line break. */
  lemma CosignExact(codec: NoteCodec, schemes: Schemes<string>, note: string,
                    signer: Signer<string>, name: string, otherName: string, otherKey: PublicKey)
    requires GoodCodec(codec) && Genuine(schemes, signer) && NoteSigner(signer)
    ensures Cosign(codec, note, signer, name).Some? <==> NoteBody(note).Some?
    ensures NoteBody(note).Some? ==>
              var cosigned, body := Cosign(codec, note, signer, name).value, NoteBody(note).value;
              && NoteBody(cosigned) == Some(body)
              && (SignedBy(codec, schemes, cosigned, name, signer.publicKey) <==>
                    || (Terminated(note) && CleanName(name))
                    || SignedAbove(codec, schemes, note, name, signer.publicKey))
              && (SignedAbove(codec, schemes, note, otherName, otherKey) ==>
                    SignedBy(codec, schemes, cosigned, otherName, otherKey))
              && (SignedBy(codec, schemes, cosigned, otherName, otherKey) <==>
                    || SignedAbove(codec, schemes, note, otherName, otherKey)
                    || SignedFrom(codec, schemes, AddedLines(note, SignedLine(codec, body, signer, name)), 0, body,
                                  otherName, otherKey))
              && ('\n' !in name ==>
                    (SignedBy(codec, schemes, cosigned, otherName, otherKey) <==>
                       || SignedAbove(codec, schemes, note, otherName, otherKey)
                       || (Terminated(note) && ValidSigLine(codec, schemes, SignedLine(codec, body, signer, name),
                                                            body, otherName, otherKey))))
              && (Terminated(note) ==>
                    (SignedAbove(codec, schemes, note, otherName, otherKey) <==>
                       SignedBy(codec, schemes, note, otherName, otherKey)))
  {
    if NoteBody(note).Some? {
      CosignOther(codec, schemes, note, signer, name, otherName, otherKey);
      CosignOther(codec, schemes, note, signer, name, name, signer.publicKey);
      CosignOwn(codec, schemes, note, signer, name);
      if Terminated(note) { SignedByAbove(codec, schemes, note, otherName, otherKey); }
    }
  }

  /** Who has signed the cosigned note: those above, and those the added lines verify for. */
  lemma CosignOther(codec: NoteCodec, schemes: Schemes<string>, note: string, signer: Signer<string>, name: string,
                    otherName: string, otherKey: PublicKey)
    requires GoodCodec(codec) && Genuine(schemes, signer) && NoteSigner(signer) && NoteBody(note).Some?
    ensures Cosign(codec, note, signer, name).Some?
    ensures var cosigned, body := Cosign(codec, note, signer, name).value, NoteBody(note).value;
            var line := SignedLine(codec, body, signer, name);
            && cosigned == note + (line + "\n") && NoteBody(cosigned) == Some(body)
            && (SignedBy(codec, schemes, cosigned, otherName, otherKey) <==>
                  || SignedAbove(codec, schemes, note, otherName, otherKey)
                  || SignedFrom(codec, schemes, AddedLines(note, line), 0, body, otherName, otherKey))
            && ('\n' !in name ==>
                  (SignedFrom(codec, schemes, AddedLines(note, line), 0, body, otherName, otherKey) <==>
                     Terminated(note) && ValidSigLine(codec, schemes, line, body, otherName, otherKey)))
  {
    var body := NoteBody(note).value;
    var line := SignedLine(codec, body, signer, name);
    assert Cosign(codec, note, signer, name).value == note + (line + "\n");
    CosignedBody(note, line);
    SignedFromConcat(codec, schemes, KeptLines(note), AddedLines(note, line), SigStart(TextLines(note)).value, body,
                     otherName, otherKey);
    if '\n' !in name { AddedSigned(codec, schemes, note, signer, name, body, otherName, otherKey); }
  }

  lemma CosignOwn(codec: NoteCodec, schemes: Schemes<string>, note: string, signer: Signer<string>, name: string)
    requires GoodCodec(codec) && Genuine(schemes, signer) && NoteSigner(signer) && NoteBody(note).Some?
    ensures SignedBy(codec, schemes, Cosign(codec, note, signer, name).value, name, signer.publicKey) <==>
            (Terminated(note) && CleanName(name)) || SignedAbove(codec, schemes, note, name, signer.publicKey)
  {
    var body := NoteBody(note).value;
    var cosigned := Cosign(codec, note, signer, name).value;
    CosignOther(codec, schemes, note, signer, name, name, signer.publicKey);
    if CleanName(name) {
      SignedLineValid(codec, schemes, body, signer, name);
    } else if SignedBy(codec, schemes, cosigned, name, signer.publicKey) {
      UncleanNeverSigns(codec, schemes, cosigned, SigStart(TextLines(cosigned)).value, body, name, signer.publicKey);
    }
  }

  /** A note cosigned without its final line break: a signed checkpoint whose last line break was
      lost still verifies; cosigned, it verifies under no name and key at all. */
  lemma UnterminatedCosignLosesAll(codec: NoteCodec, schemes: Schemes<string>, cp: Checkpoint,
                                   log: Signer<string>, logName: string, signer: Signer<string>, name: string,
                                   anyName: string, anyKey: PublicKey)
    requires GoodCodec(codec) && Genuine(schemes, log) && Genuine(schemes, signer) && cp.size < WORD
    requires NoteSigner(log) && NoteSigner(signer)
    requires CleanOrigin(cp.origin) && CleanName(logName) && CleanName(name)
    ensures var body := CheckpointBody(codec, cp);
            var note := body + SignedLine(codec, body, log, logName);
            && NoteCheckpoint(codec, schemes, note, logName, log.publicKey) == Some(cp)
            && Cosign(codec, note, signer, name).Some?
            && !SignedBy(codec, schemes, Cosign(codec, note, signer, name).value, anyName, anyKey)
  {
    var size, root, body := codec.showSize(cp.size), codec.encodeRoot(cp.root), CheckpointBody(codec, cp);
    var line := SignedLine(codec, body, log, logName);
    var note := body + line;
    SignedLineValid(codec, schemes, body, log, logName);
    NoteLines(cp.origin, size, root, line);
    UnterminatedLines(note);
    assert note + "\n" == body + line + "\n";
    assert TextLines(note) == [cp.origin, size, root, line];
    assert NoteBody(note) == Some(body) &&
           ValidSigLine(codec, schemes, TextLines(note)[3], body, logName, log.publicKey);
    BodyRoundTrip(codec, cp);
    assert KeptLines(note) == [cp.origin, size, root];
    CosignOther(codec, schemes, note, signer, name, anyName, anyKey);
  }

  /** The final line break of a note does not count as a line. */
  lemma {:induction false} UnterminatedLines(note: string)
    requires note != [] && !Terminated(note)
    ensures TextLines(note) == TextLines(note + "\n")
  {
    LastPiece(note);
    BrokenLineSplits(note);
  }
}
