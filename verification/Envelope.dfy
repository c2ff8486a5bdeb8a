/** The signed envelope `[signature, {"h": header, tag: payload}]` that every token type shares. */
module EnvelopeFormat {
  import opened Wrappers
  import opened IpldModel
  import F = CborFormat
  import J = JsonFormat
  import JsonSizes
  import Utf8
  import Varint
  import Varsig

  datatype TokenKind = Delegation | Invocation

  function Tag(kind: TokenKind): string {
    match kind
    case Delegation => "ucan/dlg@1.0.0"
    case Invocation => "ucan/inv@1.0.0"
  }

  /** The kind a tag names; release candidate tags only when asked for. */
  function FromTag(tag: string, releaseCandidates: bool): Option<TokenKind> {
    if tag == "ucan/dlg@1.0.0" then Some(Delegation)
    else if tag == "ucan/inv@1.0.0" then Some(Invocation)
    else if tag == "ucan/dlg@1.0.0-rc.1" && releaseCandidates then Some(Delegation)
    else if tag == "ucan/inv@1.0.0-rc.1" && releaseCandidates then Some(Invocation)
    else None
  }

  datatype EnvelopeError =
    | Codec(error: CodecError)
    | BadHeader(reason: Varsig.VarsigError)
    | Shape
    | UnknownTag(tag: string)
    | PayloadNotMap
    | InvalidSignature
    | AlgorithmMismatch(key: Varsig.Algorithm, signature: Varsig.Algorithm)
    | NotVerified

  datatype Signature = Signature(algorithm: Varsig.Algorithm, bytes: seq<Byte>)

  /** What was signed: a range of the token's bytes, or a text. */
  datatype Signed = Cbor(start: nat, end: nat) | Json(text: seq<Byte>)

  datatype Envelope = Envelope(
    bytes: seq<Byte>, header: Varsig.Header, signature: Signature, signed: Signed, kind: TokenKind)

  datatype Unsigned = Unsigned(signing: seq<Byte>, sigPayload: seq<Byte>)

  /** `{"h": header, tag: payload}`, the second element of the envelope. */
  function SigPayload(header: seq<Byte>, tag: string, payload: Ipld): Ipld {
    Map(map["h" := Bytes(header), tag := payload])
  }

  lemma {:induction false} TextLength(text: string)
    ensures |text| <= |Utf8.Encode(text)| <= 4 * |text|
  {
    if text != [] { TextLength(text[1..]); }
  }

  lemma {:induction false} PutLength(value: nat, n: nat)
    requires n > 0 && value < F.Pow256(n)
    ensures |Varint.Put(value)| <= 2 * n
    decreases n
  {
    if value >= 128 {
      assert F.Pow256(n) == 256 * F.Pow256(n - 1);
      if value / 128 >= 128 {
        assert n > 1 by { assert F.Pow256(0) == 1; }
        PutLength(value / 128 / 128, n - 1);
      }
    }
  }

  lemma HeaderLength(header: Varsig.Header)
    ensures |Varsig.Encode(header)| <= 100
  {
    hide Varint.Put;
    var segments := header.algorithm.Segments();
    var code := header.encoding.Code();
    F.Powers();
    hide F.Pow256;
    forall v: U64 ensures |Varint.Put(v)| <= 16 { PutLength(v, 8); }
    PutAllLength(segments + [code]);
  }

  lemma {:induction false} PutAllLength(values: seq<U64>)
    requires forall v: U64 :: |Varint.Put(v)| <= 16
    ensures |Varint.PutAll(values)| <= 16 * |values|
  {
    hide Varint.Put;
    if values != [] { PutAllLength(values[1..]); }
  }

  lemma SigPayloadIsAllocated(header: Varsig.Header, kind: TokenKind, payload: Ipld)
    requires Allocated(payload)
    ensures Allocated(SigPayload(Varsig.Encode(header), Tag(kind), payload))
  {
    hide Utf8.Encode, Varsig.Encode;
    HeaderLength(header);
    TextLength("h");
    TextLength(Tag(kind));
  }

  function InCodec<T>(r: Result<T, CodecError>): Result<T, EnvelopeError> {
    match r
    case Ok(value) => Ok(value)
    case Err(e) => Err(Codec(e))
  }

  /** What a key signs to seal `payload`, and the envelope element the signature goes with. */
  function Prepare(lib: CidLibrary, header: Varsig.Header, kind: TokenKind, payload: Ipld)
    : Result<Unsigned, EnvelopeError>
    requires lib.Lawful() && Allocated(payload)
  {
    SigPayloadIsAllocated(header, kind, payload);
    var value := SigPayload(Varsig.Encode(header), Tag(kind), payload);
    var sigPayload :- InCodec(F.Encode(lib, value));
    match header.encoding
    case DagCbor => Ok(Unsigned(sigPayload, sigPayload))
    case DagJson =>
      var text :- InCodec(J.Encode(lib, value));
      Ok(Unsigned(Utf8.Encode(text), sigPayload))
  }

  /** `[signature, sigPayload]` as bytes. */
  function Token(signature: seq<Byte>, sigPayload: seq<Byte>): seq<Byte>
    requires |signature| <= ALLOCATION_LIMIT
  {
    F.Head(F.MAJOR_ARRAY, 2) + F.BytesItem(signature) + sigPayload
  }

  /** The parts of an envelope in the order they are read. */
  datatype Parts = Parts(
    signature: seq<Byte>, start: nat, headerBytes: seq<Byte>, header: Varsig.Header, tag: string, kind: TokenKind,
    payload: Ipld)

  function ReadParts(lib: CidLibrary, b: seq<Byte>, releaseCandidates: bool): Result<Parts, EnvelopeError> {
    var (n, p1) :- InCodec(F.ReadHeadOf(b, 0, F.MAJOR_ARRAY));
    if n != 2 then Err(Shape)
    else
      var (signature, start) :- InCodec(F.ReadBytes(b, p1));
      var (m, p2) :- InCodec(F.ReadHeadOf(b, start, F.MAJOR_MAP));
      if m != 2 then Err(Shape)
      else
        var (key, p3) :- InCodec(F.ReadText(b, p2));
        if key != "h" then Err(Shape)
        else
          var (headerBytes, p4) :- InCodec(F.ReadBytes(b, p3));
          match Varsig.Decode(headerBytes)
          case Err(e) => Err(BadHeader(e))
          case Ok(header) =>
            var (tag, p5) :- InCodec(F.ReadText(b, p4));
            match FromTag(tag, releaseCandidates)
            case None => Err(UnknownTag(tag))
            case Some(kind) =>
              var (payload, end) :- InCodec(F.ReadItem(lib, b, p5, 0));
              if !payload.Map? then Err(PayloadNotMap)
              else if end != |b| then Err(Codec(TrailingBytes))
              else Ok(Parts(signature, start, headerBytes, header, tag, kind, payload))
  }

  /** Parse an envelope and give it with its payload. */
  function Open(lib: CidLibrary, b: seq<Byte>, releaseCandidates: bool): Result<(Envelope, Ipld), EnvelopeError> {
    var p :- ReadParts(lib, b, releaseCandidates);
    if |p.signature| != p.header.algorithm.SignatureLen() then Err(InvalidSignature)
    else
      var signature := Signature(p.header.algorithm, p.signature);
      match p.header.encoding
      case DagCbor => Ok((Envelope(b, p.header, signature, Cbor(p.start, |b|), p.kind), p.payload))
      case DagJson =>
        var text :- InCodec(J.Encode(lib, SigPayload(p.headerBytes, p.tag, p.payload)));
        Ok((Envelope(b, p.header, signature, Json(Utf8.Encode(text)), p.kind), p.payload))
  }

  /** The envelope's second element as DAG-CBOR, given that or the text a text signer signed. */
  function Converted(lib: CidLibrary, signed: seq<Byte>): Result<seq<Byte>, EnvelopeError>
    requires lib.Lawful() && |signed| <= ALLOCATION_LIMIT
  {
    if signed != [] && signed[0] == '{' as int then
      match J.Decode(lib, signed)
      case Err(e) => Err(Codec(e))
      case Ok(value) =>
        JsonSizes.DecodedIsAllocated(lib, signed, value);
        InCodec(F.Encode(lib, value))
    else Ok(signed)
  }

  /** Assemble `[signature, sigPayload]` and decode it under the strict rules. */
  function Assemble(lib: CidLibrary, signed: seq<Byte>, signature: seq<Byte>): Result<(Envelope, Ipld), EnvelopeError>
    requires lib.Lawful() && |signed| <= ALLOCATION_LIMIT && |signature| <= ALLOCATION_LIMIT
  {
    var sigPayload :- Converted(lib, signed);
    Open(lib, Token(signature, sigPayload), false)
  }

  /** The bytes that were signed. */
  function Message(e: Envelope): Result<seq<Byte>, EnvelopeError> {
    match e.signed
    case Cbor(start, end) => if start <= end <= |e.bytes| then Ok(e.bytes[start..end]) else Err(Shape)
    case Json(text) => Ok(text)
  }

  /** A key: its algorithm, and which signatures over which messages it accepts. */
  datatype PublicKey = PublicKey(algorithm: Varsig.Algorithm, accepts: (seq<Byte>, Signature) -> bool)

  function Verify(e: Envelope, key: PublicKey): Result<(), EnvelopeError> {
    if key.algorithm != e.header.algorithm then Err(AlgorithmMismatch(key.algorithm, e.header.algorithm))
    else
      var message :- Message(e);
      if key.accepts(message, e.signature) then Ok(()) else Err(NotVerified)
  }

  /** A key that signs. */
  datatype Signer = Signer(algorithm: Varsig.Algorithm, sign: seq<Byte> -> seq<Byte>) {
    /** Its signatures have the length of its algorithm, which no buffer is too small for. */
    ghost predicate Proper() {
      forall m :: |sign(m)| == algorithm.SignatureLen() && |sign(m)| <= ALLOCATION_LIMIT
    }
  }

  /** Sign `payload`, assemble the envelope, and decode the result under the strict rules. */
  function Seal(lib: CidLibrary, signer: Signer, kind: TokenKind, payload: Ipld): Result<Envelope, EnvelopeError>
    requires lib.Lawful() && Allocated(payload) && signer.Proper()
    requires var u := Prepare(lib, Varsig.Header(signer.algorithm, Varsig.DagCbor), kind, payload);
             u.Ok? ==> |u.value.sigPayload| <= ALLOCATION_LIMIT
  {
    var unsigned :- Prepare(lib, Varsig.Header(signer.algorithm, Varsig.DagCbor), kind, payload);
    var (envelope, _) :- Assemble(lib, unsigned.sigPayload, signer.sign(unsigned.signing));
    Ok(envelope)
  }
}
