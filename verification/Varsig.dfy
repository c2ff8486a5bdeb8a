/** Varsig v1 headers: the signature algorithm and the encoding it covers. */
module Varsig {
  import opened Wrappers
  import opened IpldModel
  import opened Buffers
  import Varint

  datatype Algorithm = Ed25519 | P256 | Secp256k1 | MlDsa44 | MlDsa65 | MlDsa87 {
    /** The multicodec of the public key type. */
    function Multicodec(): U64 {
      match this
      case Ed25519 => 0xed
      case P256 => 0x1200
      case Secp256k1 => 0xe7
      case MlDsa44 => 0x1210
      case MlDsa65 => 0x1211
      case MlDsa87 => 0x1212
    }

    function SignatureLen(): nat {
      match this
      case MlDsa44 => 2420
      case MlDsa65 => 3309
      case MlDsa87 => 4627
      case _ => 64
    }

    /** The algorithm segments that follow the version byte. */
    function Segments(): seq<U64> {
      match this
      case Ed25519 => [EDDSA, 0xed, SHA2_512]
      case P256 => [ECDSA, 0x1200, SHA2_256]
      case Secp256k1 => [ECDSA, 0xe7, SHA2_256]
      case MlDsa44 => [0x1210]
      case MlDsa65 => [0x1211]
      case MlDsa87 => [0x1212]
    }
  }

  datatype Encoding = DagCbor | DagJson {
    function Code(): U64 {
      if DagCbor? then DAG_CBOR else DAG_JSON
    }
  }

  datatype Header = Header(algorithm: Algorithm, encoding: Encoding)

  datatype VarsigError =
    | Prefix
    | Version
    | Varint
    | Truncated
    | UnknownAlgorithm(tag: U64)
    | UnsupportedParameters
    | UnsupportedEncoding(code: U64)

  const PREFIX: Byte := 0x34
  const VERSION: Byte := 0x01
  const DAG_CBOR: U64 := 0x71
  const DAG_JSON: U64 := 0x0129
  const EDDSA: U64 := 0xed
  const ECDSA: U64 := 0xec
  const SHA2_256: U64 := 0x12
  const SHA2_512: U64 := 0x13

  const ALL: seq<Algorithm> := [Ed25519, P256, Secp256k1, MlDsa44, MlDsa65, MlDsa87]

  function Encode(h: Header): seq<Byte> {
    [PREFIX, VERSION] + Varint.PutAll(h.algorithm.Segments() + [h.encoding.Code()])
  }

  /** Every varint of `bytes`, with nothing left over. */
  function ReadAll(bytes: seq<Byte>): Result<seq<U64>, VarsigError>
    decreases |bytes|
  {
    if bytes == [] then Ok([])
    else match Varint.Read(bytes)
      case Err(_) => Err(Varint)
      case Ok((value, n)) =>
        var rest :- ReadAll(bytes[n..]);
        Ok([value] + rest)
  }

  /** The first of `candidates` with these segments. */
  function Find(candidates: seq<Algorithm>, segments: seq<U64>): Option<Algorithm> {
    if candidates == [] then None
    else if candidates[0].Segments() == segments then Some(candidates[0])
    else Find(candidates[1..], segments)
  }

  function MissingAlgorithm(segments: seq<U64>): VarsigError {
    if segments == [] then Truncated
    else if segments[0] in [EDDSA, ECDSA] || exists a | a in ALL :: a.Multicodec() == segments[0]
    then UnsupportedParameters
    else UnknownAlgorithm(segments[0])
  }

  /** What the segments after the version byte say. */
  function Interpret(read: seq<U64>): Result<Header, VarsigError> {
    if read == [] then Err(Truncated)
    else
      var segments, code := read[..|read| - 1], read[|read| - 1];
      match Find(ALL, segments)
      case None => Err(MissingAlgorithm(segments))
      case Some(algorithm) =>
        if code == DAG_CBOR then Ok(Header(algorithm, DagCbor))
        else if code == DAG_JSON then Ok(Header(algorithm, DagJson))
        else Err(UnsupportedEncoding(code))
  }

  function Decode(bytes: seq<Byte>): Result<Header, VarsigError> {
    if bytes == [] || bytes[0] != PREFIX then Err(Prefix)
    else if |bytes| < 2 || bytes[1] != VERSION then Err(Version)
    else
      var read :- ReadAll(bytes[2..]);
      Interpret(read)
  }

  /** A byte string holds at most one list of varints. */
  lemma {:induction false} ReadAllExactlyPutAll(bytes: seq<Byte>, values: seq<U64>)
    ensures ReadAll(bytes) == Ok(values) <==> Varint.PutAll(values) == bytes
    decreases |values|
  {
    hide Varint.Put, Varint.Read;
    if values == [] {
      if bytes != [] && Varint.Read(bytes).Ok? && ReadAll(bytes).Ok? {
        assert ReadAll(bytes).value != [];
      }
    } else {
      var first := values[0];
      var n := |Varint.Put(first)|;
      Varint.ReadExactlyPut(bytes, first, n);
      if ReadAll(bytes) == Ok(values) {
        var (v, m) := Varint.Read(bytes).value;
        assert v == first && ReadAll(bytes[m..]).value == values[1..];
        Varint.ReadExactlyPut(bytes, v, m);
        ReadAllExactlyPutAll(bytes[n..], values[1..]);
        assert bytes == bytes[..n] + bytes[n..];
      }
      if Varint.PutAll(values) == bytes {
        assert bytes[n..] == Varint.PutAll(values[1..]);
        ReadAllExactlyPutAll(bytes[n..], values[1..]);
        assert [first] + values[1..] == values;
      }
    }
  }

  /** The segments name the algorithm: no two share a list. */
  lemma FindBySegments(segments: seq<U64>, a: Algorithm)
    ensures Find(ALL, segments) == Some(a) <==> a.Segments() == segments
  {
    assert ALL[1..] == [P256, Secp256k1, MlDsa44, MlDsa65, MlDsa87];
    assert ALL[1..][1..] == [Secp256k1, MlDsa44, MlDsa65, MlDsa87];
    assert ALL[1..][1..][1..] == [MlDsa44, MlDsa65, MlDsa87];
    assert ALL[1..][1..][1..][1..] == [MlDsa65, MlDsa87];
    assert ALL[1..][1..][1..][1..][1..] == [MlDsa87];
    assert P256.Segments()[1] != Secp256k1.Segments()[1] && Ed25519.Segments()[0] != ECDSA;
    assert MlDsa44.Segments()[0] != MlDsa65.Segments()[0];
    assert MlDsa44.Segments()[0] != MlDsa87.Segments()[0] && MlDsa65.Segments()[0] != MlDsa87.Segments()[0];
    assert segments == ALL[0].Segments() || segments != ALL[0].Segments();
    FindFirst(ALL, segments);
    if a.Segments() == segments {
      assert a in ALL;
    }
  }

  lemma {:induction false} FindFirst(candidates: seq<Algorithm>, segments: seq<U64>)
    ensures match Find(candidates, segments)
            case Some(a) => a in candidates && a.Segments() == segments
            case None => forall a :: a in candidates ==> a.Segments() != segments
  {
    if candidates != [] {
      FindFirst(candidates[1..], segments);
    }
  }

  /** A header decodes from exactly the bytes it encodes to. */
  lemma DecodeExactlyEncode(bytes: seq<Byte>, h: Header)
    ensures Decode(bytes) == Ok(h) <==> Encode(h) == bytes
  {
    hide ReadAll, Varint.PutAll, Interpret, Algorithm.Segments, Encoding.Code;
    var all := h.algorithm.Segments() + [h.encoding.Code()];
    InterpretExactly(all, h);
    if Decode(bytes) == Ok(h) {
      var read := ReadAll(bytes[2..]).value;
      InterpretExactly(read, h);
      ReadAllExactlyPutAll(bytes[2..], all);
      assert bytes == [PREFIX, VERSION] + bytes[2..];
    }
    if Encode(h) == bytes {
      assert bytes[2..] == Varint.PutAll(all);
      ReadAllExactlyPutAll(bytes[2..], all);
    }
  }

  lemma InterpretExactly(read: seq<U64>, h: Header)
    ensures Interpret(read) == Ok(h) <==> read == h.algorithm.Segments() + [h.encoding.Code()]
  {
    hide Find, MissingAlgorithm, Algorithm.Segments;
    var all := h.algorithm.Segments() + [h.encoding.Code()];
    assert all[..|all| - 1] == h.algorithm.Segments();
    if read != [] {
      FindBySegments(read[..|read| - 1], h.algorithm);
      assert read == read[..|read| - 1] + [read[|read| - 1]];
    }
  }

  method EncodeHeader(h: Header) returns (bytes: seq<Byte>)
    ensures bytes == Encode(h)
  {
    hide Varint.Put, Algorithm.Segments;
    var out := new Output();
    out.bytes := [PREFIX];
    out.bytes := out.bytes + [VERSION];
    var segments := h.algorithm.Segments();
    var code := [h.encoding.Code()];
    ghost var all := segments + code;
    var i := 0;
    assert all[0..] == all;
    while i < |segments|
      invariant 0 <= i <= |segments| && fresh(out)
      invariant out.bytes + Varint.PutAll(all[i..]) == Encode(h)
    {
      assert all[i..][1..] == all[i + 1..];
      Varint.PutUvarint(segments[i], out);
      i := i + 1;
    }
    assert all[i..] == code && code[1..] == [];
    assert Varint.PutAll(code) == Varint.Put(code[0]) + [];
    Varint.PutUvarint(h.encoding.Code(), out);
    return out.bytes;
  }

  method DecodeHeader(bytes: seq<Byte>) returns (r: Result<Header, VarsigError>)
    ensures r == Decode(bytes)
  {
    if bytes == [] || bytes[0] != PREFIX { return Err(Prefix); }
    if |bytes| < 2 || bytes[1] != VERSION { return Err(Version); }
    var rest := bytes[2..];
    var read: seq<U64> := [];
    assert forall s: seq<U64> :: [] + s == s;
    while rest != []
      invariant match ReadAll(rest)
                case Ok(more) => ReadAll(bytes[2..]) == Ok(read + more)
                case Err(e) => ReadAll(bytes[2..]) == Err(e)
      decreases |rest|
    {
      var next := Varint.ReadUvarint(rest);
      if next.Err? { return Err(Varint); }
      ghost var before := read;
      read := read + [next.value.0];
      assert forall more: seq<U64> :: read + more == before + ([next.value.0] + more);
      rest := rest[next.value.1..];
    }
    assert read + [] == read;
    return Interpret(read);
  }
}
