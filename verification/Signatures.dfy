/** The signature layer: algorithm tags, the dispatch of `verify_signature` and the two-part
    hybrid framing. The Ed25519 and ML-DSA-87 verifiers are parameters, one function each
    from message, signature bytes and key bytes to a verdict. */
module Signatures {
  import opened Wrappers

  type Byte = x: int | 0 <= x < 256

  datatype Algorithm = Ed25519 | MlDsa87 | Hybrid

  datatype PublicKey = PublicKey(algorithm: Algorithm, bytes: seq<Byte>)

  datatype Signature = Signature(algorithm: Algorithm, bytes: seq<Byte>)

  datatype CryptoError =
    | UnsupportedAlgorithm(algorithm: Algorithm)
    | AlgorithmMismatch(signature: Algorithm, publicKey: Algorithm)
    | MalformedKey(algorithm: Algorithm)
    | MalformedSignature(algorithm: Algorithm)
    | MalformedFraming(detail: string)
    | Signing(detail: string)

  /** The two component verifiers, over messages of type `M`. */
  datatype Schemes<!M> = Schemes(
    ed25519: (M, seq<Byte>, seq<Byte>) -> Result<bool, CryptoError>,
    mlDsa87: (M, seq<Byte>, seq<Byte>) -> Result<bool, CryptoError>)

  /** A signer: its public key and its signing function. */
  datatype Signer<!M> = Signer(publicKey: PublicKey, sign: M -> Result<Signature, CryptoError>)

  const WORD32: nat := 0x1_0000_0000

  function AlgorithmTag(algorithm: Algorithm): Result<Byte, CryptoError> {
    match algorithm
    case Ed25519 => Ok(0)
    case MlDsa87 => Ok(1)
    case Hybrid => Err(UnsupportedAlgorithm(Hybrid))
  }

  function TagAlgorithm(tag: Byte): Result<Algorithm, CryptoError> {
    if tag == 0 then Ok(Ed25519)
    else if tag == 1 then Ok(MlDsa87)
    else Err(MalformedFraming("unknown component algorithm tag"))
  }

  /** Big-endian bytes of a 32-bit word. */
  function BigEndian(n: nat): (bytes: seq<Byte>)
    requires n < WORD32
    ensures |bytes| == 4
  {
    var n1 := n / 0x100;
    var n2 := n1 / 0x100;
    [n2 / 0x100, n2 % 0x100, n1 % 0x100, n % 0x100]
  }

  function FromBigEndian(b0: Byte, b1: Byte, b2: Byte, b3: Byte): (n: nat)
    ensures n < WORD32
  {
    0x100 * (0x100 * (0x100 * b0 + b1) + b2) + b3
  }

  lemma BigEndianRoundTrip(n: nat)
    requires n < WORD32
    ensures var b := BigEndian(n); FromBigEndian(b[0], b[1], b[2], b[3]) == n
  {}

  lemma BigEndianOnto(b0: Byte, b1: Byte, b2: Byte, b3: Byte)
    ensures BigEndian(FromBigEndian(b0, b1, b2, b3)) == [b0, b1, b2, b3]
  {
    var n2 := 0x100 * b0 + b1;
    var n1 := 0x100 * n2 + b2;
    var n := 0x100 * n1 + b3;
    assert n / 0x100 == n1 && n1 / 0x100 == n2 && n2 / 0x100 == b0;
  }

  /** One framed component: tag, big-endian length, payload. */
  function ComponentFrame(algorithm: Algorithm, payload: seq<Byte>): Result<seq<Byte>, CryptoError> {
    match AlgorithmTag(algorithm)
    case Err(e) => Err(e)
    case Ok(tag) =>
      if |payload| >= WORD32 then Err(MalformedFraming("component too large"))
      else Ok([tag] + BigEndian(|payload|) + payload)
  }

  /** The whole hybrid framing: exactly two components, concatenated. */
  function TwoFrames(alg0: Algorithm, payload0: seq<Byte>, alg1: Algorithm,
                     payload1: seq<Byte>): Result<seq<Byte>, CryptoError> {
    match ComponentFrame(alg0, payload0)
    case Err(e) => Err(e)
    case Ok(frame0) =>
      match ComponentFrame(alg1, payload1)
      case Err(e) => Err(e)
      case Ok(frame1) => Ok(frame0 + frame1)
  }

  datatype Component = Component(algorithm: Algorithm, payload: seq<Byte>)

  /** Reads one framed component and returns it with the unconsumed rest. */
  function ReadComponent(input: seq<Byte>): Result<(Component, seq<Byte>), CryptoError> {
    if |input| < 5 then Err(MalformedFraming("truncated component header"))
    else
      match TagAlgorithm(input[0])
      case Err(e) => Err(e)
      case Ok(algorithm) =>
        var end := 5 + FromBigEndian(input[1], input[2], input[3], input[4]);
        if end > |input| then Err(MalformedFraming("truncated component payload"))
        else Ok((Component(algorithm, input[5..end]), input[end..]))
  }

  /** Decodes exactly two components and refuses trailing bytes. */
  function DecodeTwo(input: seq<Byte>): Result<(Component, Component), CryptoError> {
    match ReadComponent(input)
    case Err(e) => Err(e)
    case Ok((comp0, rest0)) =>
      match ReadComponent(rest0)
      case Err(e) => Err(e)
      case Ok((comp1, rest1)) =>
        if rest1 != [] then Err(MalformedFraming("trailing bytes after two components"))
        else Ok((comp0, comp1))
  }

  /** Appends one framed component to a buffer, leaving what was there alone. */
  method EncodeComponent(out: seq<Byte>, algorithm: Algorithm, payload: seq<Byte>)
      returns (r: Result<(), CryptoError>, grown: seq<Byte>)
    ensures match ComponentFrame(algorithm, payload)
            case Ok(frame) => r == Ok(()) && grown == out + frame
            case Err(e) => r == Err(e)
  {
    grown := out;
    var tag := AlgorithmTag(algorithm);
    if tag.Err? { return Err(tag.error), grown; }
    grown := grown + [tag.value];
    if |payload| >= WORD32 { return Err(MalformedFraming("component too large")), grown; }
    grown := grown + BigEndian(|payload|);
    grown := grown + payload;
    r := Ok(());
  }

  method FrameTwo(alg0: Algorithm, payload0: seq<Byte>, alg1: Algorithm, payload1: seq<Byte>)
      returns (r: Result<seq<Byte>, CryptoError>)
    ensures r == TwoFrames(alg0, payload0, alg1, payload1)
  {
    var first, out := EncodeComponent([], alg0, payload0);
    if first.Err? { return Err(first.error); }
    assert out == ComponentFrame(alg0, payload0).value;
    var second;
    second, out := EncodeComponent(out, alg1, payload1);
    if second.Err? { return Err(second.error); }
    r := Ok(out);
  }

  lemma ReadOfFrame(algorithm: Algorithm, payload: seq<Byte>, rest: seq<Byte>)
    requires ComponentFrame(algorithm, payload).Ok?
    ensures ReadComponent(ComponentFrame(algorithm, payload).value + rest) == Ok((Component(algorithm, payload), rest))
  {
    var frame := ComponentFrame(algorithm, payload).value;
    var input, length := frame + rest, BigEndian(|payload|);
    assert input[0] == frame[0] && input[1] == length[0] && input[2] == length[1] && input[3] == length[2] &&
           input[4] == length[3];
    BigEndianRoundTrip(|payload|);
    assert input[5..5 + |payload|] == payload && input[5 + |payload|..] == rest;
  }

  lemma FrameOfRead(input: seq<Byte>)
    requires ReadComponent(input).Ok?
    ensures var (component, rest) := ReadComponent(input).value;
            && component.algorithm != Hybrid
            && ComponentFrame(component.algorithm, component.payload).Ok?
            && ComponentFrame(component.algorithm, component.payload).value + rest == input
  {
    var (component, rest) := ReadComponent(input).value;
    BigEndianOnto(input[1], input[2], input[3], input[4]);
    var length := [input[1], input[2], input[3], input[4]];
    assert input == [input[0]] + length + component.payload + rest;
  }

  /** Decoding inverts framing. */
  lemma DecodeOfFrames(alg0: Algorithm, payload0: seq<Byte>, alg1: Algorithm, payload1: seq<Byte>)
    ensures TwoFrames(alg0, payload0, alg1, payload1).Ok? <==>
            alg0 != Hybrid && alg1 != Hybrid && |payload0| < WORD32 && |payload1| < WORD32
    ensures TwoFrames(alg0, payload0, alg1, payload1).Ok? ==>
            DecodeTwo(TwoFrames(alg0, payload0, alg1, payload1).value) ==
            Ok((Component(alg0, payload0), Component(alg1, payload1)))
  {
    if TwoFrames(alg0, payload0, alg1, payload1).Ok? {
      var frame1 := ComponentFrame(alg1, payload1).value;
      ReadOfFrame(alg0, payload0, frame1);
      ReadOfFrame(alg1, payload1, []);
      assert frame1 + [] == frame1;
    }
  }

  /** Framing inverts decoding: every accepted byte string is the one encoding of what it holds. */
  lemma FramesOfDecode(input: seq<Byte>)
    requires DecodeTwo(input).Ok?
    ensures var (c0, c1) := DecodeTwo(input).value;
            TwoFrames(c0.algorithm, c0.payload, c1.algorithm, c1.payload) == Ok(input)
  {
    var (c0, rest0) := ReadComponent(input).value;
    FrameOfRead(input);
    FrameOfRead(rest0);
    var frame1 := ComponentFrame(DecodeTwo(input).value.1.algorithm, DecodeTwo(input).value.1.payload).value;
    assert frame1 + [] == frame1;
  }

  /** The number four bytes stand for, the most significant first. */
  function Value(b0: int, b1: int, b2: int, b3: int): int {
    0x100_0000 * b0 + 0x1_0000 * b1 + 0x100 * b2 + b3
  }

  /** The bytes of a hybrid frame: a tag of 0 for Ed25519 and 1 for ML-DSA-87, four bytes of length,
      the most significant first, and the payload, twice. */
  lemma FrameLayout(payload0: seq<Byte>, payload1: seq<Byte>, n: nat)
    requires |payload0| < WORD32 && |payload1| < WORD32 && n < WORD32
    ensures TwoFrames(Ed25519, payload0, MlDsa87, payload1) ==
            Ok([0] + BigEndian(|payload0|) + payload0 + ([1] + BigEndian(|payload1|) + payload1))
    ensures var b := BigEndian(n); Value(b[0], b[1], b[2], b[3]) == n
  {
    BigEndianRoundTrip(n);
  }

  /** The verdict on one component pair of a hybrid signature and key. */
  function ComponentVerdict<M>(schemes: Schemes<M>, message: M, sig: Component,
                               key: Component): Result<bool, CryptoError> {
    if sig.algorithm != key.algorithm then Err(AlgorithmMismatch(sig.algorithm, key.algorithm))
    else
      match sig.algorithm
      case Ed25519 => schemes.ed25519(message, sig.payload, key.payload)
      case MlDsa87 => schemes.mlDsa87(message, sig.payload, key.payload)
      case Hybrid => Err(UnsupportedAlgorithm(Hybrid))
  }

  /** Both components are checked; an error on either outranks a plain `false`. */
  function HybridVerdict<M>(schemes: Schemes<M>, message: M, sigBytes: seq<Byte>,
                            keyBytes: seq<Byte>): Result<bool, CryptoError> {
    match DecodeTwo(sigBytes)
    case Err(e) => Err(e)
    case Ok((sig0, sig1)) =>
      match DecodeTwo(keyBytes)
      case Err(e) => Err(e)
      case Ok((key0, key1)) =>
        match ComponentVerdict(schemes, message, sig0, key0)
        case Err(e) => Err(e)
        case Ok(valid0) =>
          match ComponentVerdict(schemes, message, sig1, key1)
          case Err(e) => Err(e)
          case Ok(valid1) => Ok(valid0 && valid1)
  }

  /** `verify_signature`: dispatch on the signature's algorithm tag. */
  function VerifySignature<M>(schemes: Schemes<M>, message: M, signature: Signature,
                              key: PublicKey): Result<bool, CryptoError> {
    if signature.algorithm != key.algorithm then Err(AlgorithmMismatch(signature.algorithm, key.algorithm))
    else
      match signature.algorithm
      case Ed25519 => schemes.ed25519(message, signature.bytes, key.bytes)
      case MlDsa87 => schemes.mlDsa87(message, signature.bytes, key.bytes)
      case Hybrid => HybridVerdict(schemes, message, signature.bytes, key.bytes)
  }

  /** The dispatch: tags that differ are an error whatever the bytes, and each plain scheme is asked
      about exactly the message, the signature bytes and the key bytes. */
  lemma DispatchExact<M>(schemes: Schemes<M>, message: M, signature: Signature, key: PublicKey)
    ensures signature.algorithm != key.algorithm ==>
              VerifySignature(schemes, message, signature, key) ==
              Err(AlgorithmMismatch(signature.algorithm, key.algorithm))
    ensures signature.algorithm == key.algorithm == Ed25519 ==>
              VerifySignature(schemes, message, signature, key) == schemes.ed25519(message, signature.bytes, key.bytes)
    ensures signature.algorithm == key.algorithm == MlDsa87 ==>
              VerifySignature(schemes, message, signature, key) == schemes.mlDsa87(message, signature.bytes, key.bytes)
  {}

  /** Of a hybrid pair that decodes, an error of the first component comes first, then one of the
      second, and only then the conjunction of the two answers. */
  lemma HybridErrors<M>(schemes: Schemes<M>, message: M, signature: Signature, key: PublicKey)
    requires signature.algorithm == key.algorithm == Hybrid
    ensures DecodeTwo(signature.bytes).Err? ==>
              VerifySignature(schemes, message, signature, key) == Err(DecodeTwo(signature.bytes).error)
    ensures DecodeTwo(signature.bytes).Ok? && DecodeTwo(key.bytes).Err? ==>
              VerifySignature(schemes, message, signature, key) == Err(DecodeTwo(key.bytes).error)
    ensures DecodeTwo(signature.bytes).Ok? && DecodeTwo(key.bytes).Ok? ==>
              var ((s0, s1), (k0, k1)) := (DecodeTwo(signature.bytes).value, DecodeTwo(key.bytes).value);
              var first := VerifySignature(schemes, message, Signature(s0.algorithm, s0.payload),
                                           PublicKey(k0.algorithm, k0.payload));
              var second := VerifySignature(schemes, message, Signature(s1.algorithm, s1.payload),
                                            PublicKey(k1.algorithm, k1.payload));
              VerifySignature(schemes, message, signature, key) ==
              if first.Err? then first else if second.Err? then second else Ok(first.value && second.value)
  {
    if DecodeTwo(signature.bytes).Ok? {
      FrameOfRead(signature.bytes);
      FrameOfRead(ReadComponent(signature.bytes).value.1);
    }
  }

  /** The loop over the two component pairs. */
  method VerifyHybrid<M>(schemes: Schemes<M>, message: M, sigBytes: seq<Byte>, keyBytes: seq<Byte>)
      returns (r: Result<bool, CryptoError>)
    ensures r == HybridVerdict(schemes, message, sigBytes, keyBytes)
  {
    var sigs := DecodeTwo(sigBytes);
    if sigs.Err? { return Err(sigs.error); }
    var keys := DecodeTwo(keyBytes);
    if keys.Err? { return Err(keys.error); }
    var sigComponents, keyComponents := [sigs.value.0, sigs.value.1], [keys.value.0, keys.value.1];
    FrameOfRead(sigBytes);
    FrameOfRead(ReadComponent(sigBytes).value.1);
    var bothValid := true;
    ghost var verdict0 := ComponentVerdict(schemes, message, sigs.value.0, keys.value.0);
    ghost var verdict1 := ComponentVerdict(schemes, message, sigs.value.1, keys.value.1);
    for i := 0 to 2
      invariant (i >= 1 ==> verdict0.Ok?) && (i == 2 ==> verdict1.Ok?)
      invariant bothValid <==> (i >= 1 ==> verdict0 == Ok(true)) && (i == 2 ==> verdict1 == Ok(true))
    {
      var sig, key := sigComponents[i], keyComponents[i];
      if sig.algorithm != key.algorithm {
        return Err(AlgorithmMismatch(sig.algorithm, key.algorithm));
      }
      var valid := VerifySignature(schemes, message, Signature(sig.algorithm, sig.payload),
                                   PublicKey(key.algorithm, key.payload));
      if valid.Err? { return Err(valid.error); }
      if !valid.value { bothValid := false; }
    }
    r := Ok(bothValid);
  }

  /** A hybrid signature is valid exactly when both byte strings decode, tags agree pairwise
      and each component verifies on its own. */
  lemma HybridExact<M>(schemes: Schemes<M>, message: M, signature: Signature, key: PublicKey)
    requires signature.algorithm == Hybrid
    ensures VerifySignature(schemes, message, signature, key) == Ok(true) <==>
            && key.algorithm == Hybrid
            && DecodeTwo(signature.bytes).Ok? && DecodeTwo(key.bytes).Ok?
            && var (s0, s1) := DecodeTwo(signature.bytes).value;
               var (k0, k1) := DecodeTwo(key.bytes).value;
               && VerifySignature(schemes, message, Signature(s0.algorithm, s0.payload),
                                  PublicKey(k0.algorithm, k0.payload)) == Ok(true)
               && VerifySignature(schemes, message, Signature(s1.algorithm, s1.payload),
                                  PublicKey(k1.algorithm, k1.payload)) == Ok(true)
  {
    if DecodeTwo(signature.bytes).Ok? {
      FrameOfRead(signature.bytes);
      FrameOfRead(ReadComponent(signature.bytes).value.1);
    }
  }

  /** A signer whose every signature verifies under its own key. */
  ghost predicate Genuine<M(!new)>(schemes: Schemes<M>, signer: Signer<M>) {
    forall m: M :: signer.sign(m).Ok? ==>
           VerifySignature(schemes, m, signer.sign(m).value, signer.publicKey) == Ok(true)
  }

  function HybridSign<M>(classical: Signer<M>, postQuantum: Signer<M>, message: M): Result<Signature, CryptoError> {
    match classical.sign(message)
    case Err(e) => Err(e)
    case Ok(c) =>
      match postQuantum.sign(message)
      case Err(e) => Err(e)
      case Ok(q) =>
        match TwoFrames(c.algorithm, c.bytes, q.algorithm, q.bytes)
        case Err(e) => Err(e)
        case Ok(bytes) => Ok(Signature(Hybrid, bytes))
  }

  /** Composes two signers; refuses a component that is itself a hybrid. */
  function HybridSigner<M>(classical: Signer<M>, postQuantum: Signer<M>): Result<Signer<M>, CryptoError> {
    match TwoFrames(classical.publicKey.algorithm, classical.publicKey.bytes,
                    postQuantum.publicKey.algorithm, postQuantum.publicKey.bytes)
    case Err(e) => Err(e)
    case Ok(bytes) => Ok(Signer(PublicKey(Hybrid, bytes), m => HybridSign(classical, postQuantum, m)))
  }

  /** A hybrid key and a hybrid signature carry the two components' own, the classical one first. */
  lemma {:induction false} HybridComponents<M>(classical: Signer<M>, postQuantum: Signer<M>, message: M)
    requires HybridSigner(classical, postQuantum).Ok?
    ensures var hybrid, ck, qk :=
              HybridSigner(classical, postQuantum).value, classical.publicKey, postQuantum.publicKey;
            && hybrid.publicKey.algorithm == Hybrid
            && DecodeTwo(hybrid.publicKey.bytes) ==
               Ok((Component(ck.algorithm, ck.bytes), Component(qk.algorithm, qk.bytes)))
            && (hybrid.sign(message).Ok? ==>
                  && classical.sign(message).Ok? && postQuantum.sign(message).Ok?
                  && var c, q := classical.sign(message).value, postQuantum.sign(message).value;
                  && hybrid.sign(message).value.algorithm == Hybrid
                  && DecodeTwo(hybrid.sign(message).value.bytes) ==
                     Ok((Component(c.algorithm, c.bytes), Component(q.algorithm, q.bytes))))
  {
    var hybrid, ck, qk := HybridSigner(classical, postQuantum).value, classical.publicKey, postQuantum.publicKey;
    DecodeOfFrames(ck.algorithm, ck.bytes, qk.algorithm, qk.bytes);
    if hybrid.sign(message).Ok? {
      var c, q := classical.sign(message).value, postQuantum.sign(message).value;
      DecodeOfFrames(c.algorithm, c.bytes, q.algorithm, q.bytes);
    }
  }

  /** Two genuine signers compose into a genuine hybrid signer. */
  lemma HybridSignerGenuine<M(!new)>(schemes: Schemes<M>, classical: Signer<M>, postQuantum: Signer<M>)
    requires Genuine(schemes, classical) && Genuine(schemes, postQuantum)
    requires HybridSigner(classical, postQuantum).Ok?
    ensures Genuine(schemes, HybridSigner(classical, postQuantum).value)
  {
    var hybrid := HybridSigner(classical, postQuantum).value;
    var ck, qk := classical.publicKey, postQuantum.publicKey;
    DecodeOfFrames(ck.algorithm, ck.bytes, qk.algorithm, qk.bytes);
    forall m: M | hybrid.sign(m).Ok?
      ensures VerifySignature(schemes, m, hybrid.sign(m).value, hybrid.publicKey) == Ok(true)
    {
      var c, q := classical.sign(m).value, postQuantum.sign(m).value;
      DecodeOfFrames(c.algorithm, c.bytes, q.algorithm, q.bytes);
    }
  }
}
