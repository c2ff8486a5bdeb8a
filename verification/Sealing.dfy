/** Preparing, assembling and opening envelopes as the code runs them, against EnvelopeFormat. */
module Sealing {
  import opened Wrappers
  import opened Buffers
  import opened IpldModel
  import E = EnvelopeFormat
  import F = CborFormat
  import Cbor
  import Json
  import Utf8
  import Varsig

  method Prepare(lib: CidLibrary, header: Varsig.Header, kind: E.TokenKind, payload: Ipld)
    returns (r: Result<E.Unsigned, E.EnvelopeError>)
    requires lib.Lawful() && Allocated(payload)
    ensures r == E.Prepare(lib, header, kind, payload)
  {
    E.SigPayloadIsAllocated(header, kind, payload);
    hide F.Encode, Varsig.Encode, E.SigPayload, Allocated;
    var headerBytes := Varsig.EncodeHeader(header);
    var value := E.SigPayload(headerBytes, E.Tag(kind), payload);
    var encoded := Cbor.Encode(lib, value);
    var sigPayload :- E.InCodec(encoded);
    match header.encoding {
      case DagCbor => return Ok(E.Unsigned(sigPayload, sigPayload));
      case DagJson =>
        var printed := Json.Encode(lib, value);
        var text :- E.InCodec(printed);
        return Ok(E.Unsigned(Utf8.Encode(text), sigPayload));
    }
  }

  /** Parse an envelope and return it with its payload. */
  method Open(lib: CidLibrary, bytes: seq<Byte>, releaseCandidates: bool)
    returns (r: Result<(E.Envelope, Ipld), E.EnvelopeError>)
    ensures r == E.Open(lib, bytes, releaseCandidates)
  {
    hide F.ReadHeadOf, F.ReadBytes, F.ReadText, F.ReadItem, Varsig.Decode, E.FromTag, E.SigPayload;
    var reader := new Cbor.Reader(bytes);
    var length := reader.ArrayLen();
    var n :- E.InCodec(length);
    if n != 2 { return Err(E.Shape); }
    var first := reader.ReadBytes();
    var signatureBytes :- E.InCodec(first);
    var start := reader.pos;
    var count := reader.MapLen();
    var m :- E.InCodec(count);
    if m != 2 { return Err(E.Shape); }
    var key := reader.Text();
    var name :- E.InCodec(key);
    if name != "h" { return Err(E.Shape); }
    var second := reader.ReadBytes();
    var headerBytes :- E.InCodec(second);
    var decoded := Varsig.DecodeHeader(headerBytes);
    if decoded.Err? { return Err(E.BadHeader(decoded.error)); }
    var header := decoded.value;
    var tagText := reader.Text();
    var tag :- E.InCodec(tagText);
    var kind := E.FromTag(tag, releaseCandidates);
    if kind.None? { return Err(E.UnknownTag(tag)); }
    var value := reader.Value(lib);
    var payload :- E.InCodec(value);
    if !payload.Map? { return Err(E.PayloadNotMap); }
    var end := reader.pos;
    var finished := reader.Finish();
    var _ :- E.InCodec(finished);
    if |signatureBytes| != header.algorithm.SignatureLen() { return Err(E.InvalidSignature); }
    var signature := E.Signature(header.algorithm, signatureBytes);
    var signed := E.Cbor(start, end);
    if header.encoding.DagJson? {
      var printed := Json.Encode(lib, E.SigPayload(headerBytes, tag, payload));
      var text :- E.InCodec(printed);
      signed := E.Json(Utf8.Encode(text));
    }
    return Ok((E.Envelope(bytes, header, signature, signed, kind.value), payload));
  }

  /** Assemble `[signature, sigPayload]`, from the signed text if that is what was signed, and open it. */
  method Assemble(lib: CidLibrary, signed: seq<Byte>, signature: seq<Byte>)
    returns (r: Result<(E.Envelope, Ipld), E.EnvelopeError>)
    requires lib.Lawful() && |signed| <= ALLOCATION_LIMIT && |signature| <= ALLOCATION_LIMIT
    ensures r == E.Assemble(lib, signed, signature)
  {
    hide E.Open, F.Head, F.BytesItem;
    var sigPayload := signed;
    if signed != [] && signed[0] == '{' as int {
      var decoded := Json.Decode(lib, signed);
      var value :- E.InCodec(decoded);
      E.JsonSizes.DecodedIsAllocated(lib, signed, value);
      var encoded := Cbor.Encode(lib, value);
      sigPayload :- E.InCodec(encoded);
    }
    var out := new Output();
    Cbor.WriteHead(F.MAJOR_ARRAY, 2, out);
    Cbor.WriteBytes(signature, out);
    out.bytes := out.bytes + sigPayload;
    assert out.bytes == E.Token(signature, sigPayload);
    r := Open(lib, out.bytes, false);
  }
}
