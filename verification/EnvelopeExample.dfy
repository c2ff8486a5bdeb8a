/** A signer, a key and a payload that meet everything the envelope's theorems ask for. */
module EnvelopeExample {
  import opened Wrappers
  import opened IpldModel
  import opened EnvelopeFormat
  import CidExample
  import F = CborFormat
  import C = CborProofs
  import J = JsonFormat
  import P = EnvelopeProofs
  import Utf8
  import Varsig

  /** A signer that signs everything with zeros. */
  function Mute(algorithm: Varsig.Algorithm): Signer {
    Signer(algorithm, m => seq(algorithm.SignatureLen(), _ => 0))
  }

  /** A key that accepts just its signatures. */
  function MuteKey(algorithm: Varsig.Algorithm): PublicKey {
    PublicKey(algorithm, (m, s) => s == Signature(algorithm, seq(algorithm.SignatureLen(), _ => 0)))
  }

  lemma HeadLength(major: int, n: U64)
    requires 0 <= major < 7 && n < 0x1_0000
    ensures |F.Head(major, n)| <= 3
  {
    F.Powers();
  }

  lemma SmallSigPayload(header: seq<Byte>, kind: TokenKind, payload: seq<Byte>)
    requires |header| <= 100 && |Utf8.Encode(Tag(kind))| <= ALLOCATION_LIMIT
    ensures |P.SigPayloadBytes(header, Tag(kind), payload)| <= |payload| + 200
  {
    TextLength("h");
    TextLength(Tag(kind));
    hide F.Head, Utf8.Encode;
    HeadLength(F.MAJOR_MAP, 2);
    HeadLength(F.MAJOR_TEXT, |Utf8.Encode("h")|);
    HeadLength(F.MAJOR_TEXT, |Utf8.Encode(Tag(kind))|);
    HeadLength(F.MAJOR_BYTES, |header|);
  }

  lemma SmallToken(signature: seq<Byte>, sigPayload: seq<Byte>)
    requires |signature| <= 0xffff && |sigPayload| <= 1000
    ensures |Token(signature, sigPayload)| <= 0x1_0000 + 1010
  {
    hide F.Head;
    HeadLength(F.MAJOR_ARRAY, 2);
    HeadLength(F.MAJOR_BYTES, |signature|);
  }

  lemma EmptyMap(lib: CidLibrary)
    requires lib.Lawful()
    ensures Allocated(Map(map[])) && C.Encodable(Map(map[]), 1)
    ensures F.WriteItem(lib, Map(map[]), 0).Ok? ==> |F.WriteItem(lib, Map(map[]), 0).value| <= 3
  {
    hide F.Head;
    assert F.CanonicalKeys({}) == [];
    HeadLength(F.MAJOR_MAP, 0);
  }

  lemma Prepared(lib: CidLibrary, algorithm: Varsig.Algorithm, kind: TokenKind)
    requires lib.Lawful()
    ensures Allocated(Map(map[]))
    ensures var u := Prepare(lib, Varsig.Header(algorithm, Varsig.DagCbor), kind, Map(map[]));
            u.Ok? && |u.value.sigPayload| <= 1000
  {
    EmptyMap(lib);
    hide CidLibrary.Lawful, Prepare, Allocated, Varsig.Encode, Utf8.Encode, P.SigPayloadBytes, F.WriteItem, Tag,
      SigPayload, J.Encode, C.Encodable;
    var header := Varsig.Header(algorithm, Varsig.DagCbor);
    P.PrepareDomain(lib, header, kind, Map(map[]));
    P.PreparedBytes(lib, header, kind, Map(map[]));
    HeaderLength(header);
    SmallSigPayload(Varsig.Encode(header), kind, F.WriteItem(lib, Map(map[]), 0).value);
  }

  lemma MuteIsProper(algorithm: Varsig.Algorithm)
    ensures Mute(algorithm).Proper()
    ensures forall m :: MuteKey(algorithm).accepts(m, Signature(algorithm, Mute(algorithm).sign(m)))
  {
  }

  /** A key of the same algorithm that accepts nothing. */
  function DeafKey(algorithm: Varsig.Algorithm): PublicKey {
    PublicKey(algorithm, (m, s) => false)
  }

  lemma DeafRefuses(e: Envelope, algorithm: Varsig.Algorithm)
    requires Verify(e, MuteKey(algorithm)) == Ok(())
    ensures Verify(e, DeafKey(algorithm)) == Err(NotVerified)
  {
  }

  /** An empty payload is sealed; what comes of it verifies under its key and under no deaf one. */
  lemma SealsAndVerifies(algorithm: Varsig.Algorithm, kind: TokenKind)
    ensures CidExample.Library().Lawful() && Mute(algorithm).Proper() && Allocated(Map(map[]))
    ensures var u := Prepare(CidExample.Library(), Varsig.Header(algorithm, Varsig.DagCbor), kind, Map(map[]));
            u.Ok? && |u.value.sigPayload| <= 1000
    ensures var sealed := Seal(CidExample.Library(), Mute(algorithm), kind, Map(map[]));
            && sealed.Ok? && Verify(sealed.value, MuteKey(algorithm)) == Ok(())
            && Verify(sealed.value, DeafKey(algorithm)) == Err(NotVerified)
  {
    CidExample.LibraryIsLawful();
    MuteIsProper(algorithm);
    hide CidExample.Library, CidLibrary.Lawful, Prepare, Allocated, Seal, Verify, Token, Signer.Proper;
    var lib, signer := CidExample.Library(), Mute(algorithm);
    Prepared(lib, algorithm, kind);
    var u := Prepare(lib, Varsig.Header(algorithm, Varsig.DagCbor), kind, Map(map[])).value;
    SmallToken(signer.sign(u.signing), u.sigPayload);
    P.SealedVerifies(lib, signer, kind, Map(map[]), MuteKey(algorithm));
    DeafRefuses(Seal(lib, signer, kind, Map(map[])).value, algorithm);
  }
}
