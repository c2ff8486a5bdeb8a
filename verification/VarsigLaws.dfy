/** The header bytes of each algorithm, and why other bytes are refused. */
module VarsigLaws {
  import opened Wrappers
  import opened Varsig
  import Varint

  /** Varints of one and of two bytes. */
  lemma ShortVarints(value: nat)
    ensures value < 0x80 ==> Varint.Put(value) == [value]
    ensures 0x80 <= value < 0x4000 ==> Varint.Put(value) == [0x80 + value % 0x80, value / 0x80]
  {
    if 0x80 <= value < 0x4000 { assert Varint.Put(value / 0x80) == [value / 0x80]; }
  }

  lemma PutAllStep(a: U64, rest: seq<U64>)
    ensures Varint.PutAll([a] + rest) == Varint.Put(a) + Varint.PutAll(rest)
  {
    assert ([a] + rest)[1..] == rest;
  }

  lemma OneSegment(a: U64, b: U64)
    ensures Varint.PutAll([a, b]) == Varint.Put(a) + Varint.Put(b)
  {
    assert Varint.PutAll([]) == [];
    hide Varint.Put, Varint.PutAll;
    PutAllStep(b, []);
    assert [b] + [] == [b] && [a] + [b] == [a, b] && Varint.Put(b) + [] == Varint.Put(b);
    PutAllStep(a, [b]);
  }

  lemma ThreeSegments(a: U64, b: U64, c: U64, d: U64)
    ensures Varint.PutAll([a, b, c, d]) == Varint.Put(a) + (Varint.Put(b) + (Varint.Put(c) + Varint.Put(d)))
  {
    hide Varint.Put, Varint.PutAll;
    OneSegment(c, d);
    assert [b] + [c, d] == [b, c, d] && [a] + [b, c, d] == [a, b, c, d];
    PutAllStep(b, [c, d]);
    PutAllStep(a, [b, c, d]);
  }

  /** The bytes that tell the encoding. */
  function Ending(encoding: Encoding): seq<Byte> {
    if encoding.DagCbor? then [0x71] else [0xa9, 0x02]
  }

  lemma EndingIsCode(encoding: Encoding)
    ensures Varint.Put(encoding.Code()) == Ending(encoding)
  {
    ShortVarints(encoding.Code());
  }

  /** The header of each algorithm, byte by byte, as in the table of the wire format: the curves, */
  lemma CurveHeaders(encoding: Encoding)
    ensures Encode(Header(Ed25519, encoding)) == [0x34, 0x01, 0xed, 0x01, 0xed, 0x01, 0x13] + Ending(encoding)
    ensures Encode(Header(P256, encoding)) == [0x34, 0x01, 0xec, 0x01, 0x80, 0x24, 0x12] + Ending(encoding)
    ensures Encode(Header(Secp256k1, encoding)) == [0x34, 0x01, 0xec, 0x01, 0xe7, 0x01, 0x12] + Ending(encoding)
  {
    EndingIsCode(encoding);
    ShortVarints(0xed);
    ShortVarints(0xec);
    ShortVarints(0xe7);
    ShortVarints(0x12);
    ShortVarints(0x13);
    ShortVarints(0x1200);
    hide Varint.Put, Varint.PutAll, Encoding.Code, Ending;
    var code := encoding.Code();
    ThreeSegments(0xed, 0xed, 0x13, code);
    ThreeSegments(0xec, 0x1200, 0x12, code);
    ThreeSegments(0xec, 0xe7, 0x12, code);
    assert Ed25519.Segments() + [code] == [0xed, 0xed, 0x13, code];
    assert P256.Segments() + [code] == [0xec, 0x1200, 0x12, code];
    assert Secp256k1.Segments() + [code] == [0xec, 0xe7, 0x12, code];
  }

  /** and the lattices. */
  lemma LatticeHeaders(encoding: Encoding)
    ensures Encode(Header(MlDsa44, encoding)) == [0x34, 0x01, 0x90, 0x24] + Ending(encoding)
    ensures Encode(Header(MlDsa65, encoding)) == [0x34, 0x01, 0x91, 0x24] + Ending(encoding)
    ensures Encode(Header(MlDsa87, encoding)) == [0x34, 0x01, 0x92, 0x24] + Ending(encoding)
  {
    EndingIsCode(encoding);
    ShortVarints(0x1210);
    ShortVarints(0x1211);
    ShortVarints(0x1212);
    hide Varint.Put, Varint.PutAll, Encoding.Code, Ending;
    var code := encoding.Code();
    OneSegment(0x1210, code);
    OneSegment(0x1211, code);
    OneSegment(0x1212, code);
  }

  /** Every header names the key's own multicodec, and no two algorithms have the same. */
  lemma SegmentsNameKey(a: Algorithm, b: Algorithm)
    ensures a.Multicodec() in a.Segments()
    ensures |a.Segments()| == 3 ==> a.Segments()[1] == a.Multicodec()
    ensures |a.Segments()| != 3 ==> a.Segments() == [a.Multicodec()]
    ensures a.Multicodec() == b.Multicodec() ==> a == b
  {
  }

  /** What sets the length of an ML-DSA signature, table 1 of FIPS 204. */
  datatype Parameters = Parameters(strength: nat, k: nat, l: nat, bits: nat, omega: nat)

  function ParametersOf(a: Algorithm): Option<Parameters> {
    match a
    case MlDsa44 => Some(Parameters(128, 4, 4, 18, 80))
    case MlDsa65 => Some(Parameters(192, 6, 5, 20, 55))
    case MlDsa87 => Some(Parameters(256, 8, 7, 20, 75))
    case _ => None
  }

  /**
   * A lattice signature is its challenge, `l` polynomials of 256 coefficients and its hint, section 7.2 of
   * FIPS 204; one on a curve of 256 bits is two numbers of that size.
   */
  lemma SignatureLengths(a: Algorithm)
    ensures match ParametersOf(a)
            case Some(p) => a.SignatureLen() == p.strength / 4 + p.l * (256 * p.bits / 8) + p.omega + p.k
            case None => a.SignatureLen() == 2 * (256 / 8)
  {
  }

  /** Why a list of segments is no header. */
  lemma InterpretRefuses(read: seq<U64>, e: VarsigError)
    ensures Interpret(read) == Err(e) <==>
            if |read| <= 1 then e == Truncated
            else
              var segments, code := read[..|read| - 1], read[|read| - 1];
              if exists a: Algorithm :: a.Segments() == segments
              then code != 0x71 && code != 0x0129 && e == UnsupportedEncoding(code)
              else if segments[0] in {0xed, 0xec, 0x1200, 0xe7, 0x1210, 0x1211, 0x1212} then e == UnsupportedParameters
              else e == UnknownAlgorithm(segments[0])
  {
    if |read| > 1 {
      var segments := read[..|read| - 1];
      FindFirst(ALL, segments);
      forall a: Algorithm ensures a in ALL { AllAlgorithms(a); }
      KnownTags(segments[0]);
      hide Find, Algorithm.Segments;
    } else if |read| == 1 {
      assert read[..0] == [];
      FindFirst(ALL, []);
    }
  }

  lemma AllAlgorithms(a: Algorithm)
    ensures a in ALL
  {
    assert ALL == [Ed25519, P256, Secp256k1, MlDsa44, MlDsa65, MlDsa87];
  }

  lemma KnownTags(tag: U64)
    ensures tag in [EDDSA, ECDSA] || (exists a | a in ALL :: a.Multicodec() == tag)
       <==> tag in {0xed, 0xec, 0x1200, 0xe7, 0x1210, 0x1211, 0x1212}
  {
    forall a: Algorithm ensures a in ALL { AllAlgorithms(a); }
    assert P256.Multicodec() == 0x1200 && Secp256k1.Multicodec() == 0xe7;
    assert MlDsa44.Multicodec() == 0x1210 && MlDsa65.Multicodec() == 0x1211 && MlDsa87.Multicodec() == 0x1212;
  }
}
