/** What is signed is what is verified, and text and binary signing agree. */
module EnvelopeProofs {
  import opened Wrappers
  import opened IpldModel
  import opened EnvelopeFormat
  import F = CborFormat
  import C = CborProofs
  import J = JsonFormat
  import JP = JsonProofs
  import KeyOrder
  import Utf8
  import Varsig

  // Depth does not show in the bytes

  /** A value that can be written one level deeper has the same bytes there. */
  lemma {:induction false} WriteShallower(lib: CidLibrary, v: Ipld, depth: nat)
    requires lib.Lawful() && Allocated(v) && depth <= MAX_DEPTH && F.WriteItem(lib, v, depth + 1).Ok?
    ensures F.WriteItem(lib, v, depth) == F.WriteItem(lib, v, depth + 1)
    decreases MAX_DEPTH + 1 - depth, 0, 0
  {
    hide F.Head, F.TextItem, F.BytesItem, F.LinkItem, F.FloatItem, F.WriteInteger, F.WriteItems, F.WriteEntries,
      F.CanonicalKeys;
    C.AllocatedParts(v);
    hide Allocated;
    C.WrittenDepth(lib, v, depth + 1);
    match v
    case List(items) => WriteItemsShallower(lib, items, depth + 1);
    case Map(m) => WriteEntriesShallower(lib, m, F.CanonicalKeys(m.Keys), depth + 1);
    case _ =>
  }

  lemma {:induction false} WriteItemsShallower(lib: CidLibrary, items: seq<Ipld>, depth: nat)
    requires lib.Lawful() && depth <= MAX_DEPTH && forall i :: 0 <= i < |items| ==> Allocated(items[i])
    requires F.WriteItems(lib, items, depth + 1).Ok?
    ensures F.WriteItems(lib, items, depth) == F.WriteItems(lib, items, depth + 1)
    decreases MAX_DEPTH + 1 - depth, 1, |items|
  {
    hide F.WriteItem, Allocated;
    if items != [] {
      WriteShallower(lib, items[0], depth);
      WriteItemsShallower(lib, items[1..], depth);
    }
  }

  lemma {:induction false} WriteEntriesShallower(
      lib: CidLibrary, m: map<string, Ipld>, keys: seq<string>, depth: nat)
    requires lib.Lawful() && Allocated(Map(m)) && depth <= MAX_DEPTH
    requires (forall k :: k in keys ==> k in m) && F.WriteEntries(lib, m, keys, depth + 1).Ok?
    ensures F.WriteEntries(lib, m, keys, depth) == F.WriteEntries(lib, m, keys, depth + 1)
    decreases MAX_DEPTH + 1 - depth, 1, |keys|
  {
    C.AllocatedParts(Map(m));
    hide F.WriteItem, F.TextItem, Allocated, Utf8.Encode;
    if keys != [] {
      WriteShallower(lib, m[keys[0]], depth);
      WriteEntriesShallower(lib, m, keys[1..], depth);
    }
  }

  // The bytes of a token

  /** The second element as bytes: the header key, being shorter, comes before the tag. */
  function SigPayloadBytes(header: seq<Byte>, tag: string, payload: seq<Byte>): seq<Byte>
    requires |header| <= ALLOCATION_LIMIT && |Utf8.Encode(tag)| <= ALLOCATION_LIMIT
  {
    TextLength("h");
    F.Head(F.MAJOR_MAP, 2) + F.TextItem("h") + F.BytesItem(header) + F.TextItem(tag) + payload
  }

  lemma SigPayloadKeys(tag: string)
    requires |tag| > 4
    ensures "h" != tag && F.CanonicalKeys({"h", tag}) == ["h", tag]
  {
    TextLength("h");
    TextLength(tag);
    hide Utf8.Encode, F.CanonicalKeys;
    KeyOrder.LengthFirstIsStrictTotal();
    assert KeyOrder.LengthFirst("h", tag);
    KeyOrder.ListingUnique(F.CanonicalKeys({"h", tag}), ["h", tag], KeyOrder.LengthFirst);
  }

  lemma WriteSigPayload(lib: CidLibrary, header: seq<Byte>, tag: string, payload: Ipld)
    requires lib.Lawful() && |tag| > 4 && Allocated(SigPayload(header, tag, payload))
    requires |header| <= ALLOCATION_LIMIT && |Utf8.Encode(tag)| <= ALLOCATION_LIMIT && Allocated(payload)
    ensures var written := F.WriteItem(lib, payload, 1);
            F.Encode(lib, SigPayload(header, tag, payload)) ==
            if written.Ok? then Ok(SigPayloadBytes(header, tag, written.value)) else written
  {
    hide F.WriteItem, F.TextItem, F.BytesItem, F.Head, F.CanonicalKeys, Allocated, Utf8.Encode, F.WriteEntries;
    TextLength("h");
    SigPayloadKeys(tag);
    var m := map["h" := Bytes(header), tag := payload];
    assert m.Keys == {"h", tag};
    var keys := ["h", tag];
    WriteSigMap(lib, m);
    EntriesOfTwo(lib, m, "h", tag, 1);
    WriteBytesItem(lib, header, 1);
    var a, b := F.TextItem("h") + F.BytesItem(header), F.TextItem(tag);
    if F.WriteItem(lib, payload, 1).Ok? {
      var body := F.WriteItem(lib, payload, 1).value;
      assert F.Head(F.MAJOR_MAP, 2) + (a + (b + body))
          == F.Head(F.MAJOR_MAP, 2) + F.TextItem("h") + F.BytesItem(header) + F.TextItem(tag) + body;
    }
  }

  lemma WriteSigMap(lib: CidLibrary, m: map<string, Ipld>)
    requires lib.Lawful() && Allocated(Map(m))
    ensures F.WriteItem(lib, Map(m), 0) ==
            var body := F.WriteEntries(lib, m, F.CanonicalKeys(m.Keys), 1);
            if body.Ok? then Ok(F.Head(F.MAJOR_MAP, |m|) + body.value) else body
  {
    hide F.WriteEntries, F.Head, F.CanonicalKeys, F.WriteItems;
  }

  lemma WriteBytesItem(lib: CidLibrary, bytes: seq<Byte>, depth: nat)
    requires lib.Lawful() && |bytes| <= ALLOCATION_LIMIT && depth <= MAX_DEPTH
    ensures F.WriteItem(lib, Bytes(bytes), depth) == Ok(F.BytesItem(bytes))
  {
  }

  lemma EntriesOfTwo(lib: CidLibrary, m: map<string, Ipld>, a: string, b: string, depth: nat)
    requires lib.Lawful() && Allocated(Map(m)) && depth <= MAX_DEPTH + 1 && a in m && b in m
    ensures |Utf8.Encode(a)| <= ALLOCATION_LIMIT && |Utf8.Encode(b)| <= ALLOCATION_LIMIT
    ensures Allocated(m[a]) && Allocated(m[b])
    ensures F.WriteEntries(lib, m, [a, b], depth) ==
            match (F.WriteItem(lib, m[a], depth), F.WriteItem(lib, m[b], depth))
            case (Ok(x), Ok(y)) => Ok(F.TextItem(a) + x + (F.TextItem(b) + y))
            case (Err(e), _) => Err(e)
            case (_, Err(e)) => Err(e)
  {
    C.AllocatedParts(Map(m));
    hide F.WriteItem, F.TextItem, Allocated, Utf8.Encode;
    assert [a, b][1..] == [b] && [b][1..] == [];
    assert F.WriteEntries(lib, m, [], depth) == Ok([]);
    C.WriteEntriesStep(lib, m, [b], depth);
    C.WriteEntriesStep(lib, m, [a, b], depth);
    if F.WriteItem(lib, m[b], depth).Ok? {
      var y := F.WriteItem(lib, m[b], depth).value;
      assert F.TextItem(b) + y + [] == F.TextItem(b) + y;
    }
  }

  /** A token of these parts. */
  function TokenBytes(signature: seq<Byte>, header: Varsig.Header, tag: string, payload: seq<Byte>): seq<Byte>
    requires |signature| <= ALLOCATION_LIMIT && |Utf8.Encode(tag)| <= ALLOCATION_LIMIT
  {
    HeaderLength(header);
    Token(signature, SigPayloadBytes(Varsig.Encode(header), tag, payload))
  }

  lemma HeadIsRead(b: seq<Byte>, pos: nat, major: int, n: U64)
    requires |b| <= ALLOCATION_LIMIT && 0 <= major < 7 && At(b, pos, F.Head(major, n))
    ensures F.ReadHeadOf(b, pos, major) == Ok((n, pos + |F.Head(major, n)|))
  {
    hide F.Head, F.ReadHead;
    C.ReadWrittenHead(b, pos, major, n);
  }

  /** Where each part of a token stands. */
  lemma TokenPieces(signature: seq<Byte>, header: seq<Byte>, tag: string, payload: seq<Byte>)
    requires |signature| <= ALLOCATION_LIMIT && |header| <= ALLOCATION_LIMIT
    requires |Utf8.Encode(tag)| <= ALLOCATION_LIMIT && |Utf8.Encode("h")| <= ALLOCATION_LIMIT
    ensures var b := Token(signature, SigPayloadBytes(header, tag, payload));
            var p1 := |F.Head(F.MAJOR_ARRAY, 2)|;
            var start := p1 + |F.BytesItem(signature)|;
            var p2 := start + |F.Head(F.MAJOR_MAP, 2)|;
            var p3 := p2 + |F.TextItem("h")|;
            var p4 := p3 + |F.BytesItem(header)|;
            var p5 := p4 + |F.TextItem(tag)|;
            && At(b, 0, F.Head(F.MAJOR_ARRAY, 2)) && At(b, p1, F.BytesItem(signature))
            && At(b, start, F.Head(F.MAJOR_MAP, 2)) && At(b, p2, F.TextItem("h")) && At(b, p3, F.BytesItem(header))
            && At(b, p4, F.TextItem(tag)) && At(b, p5, payload) && p5 + |payload| == |b|
            && At(b, start, SigPayloadBytes(header, tag, payload))
  {
    hide F.Head, F.BytesItem, F.TextItem, At, Utf8.Encode;
    SevenStand(F.Head(F.MAJOR_ARRAY, 2), F.BytesItem(signature), F.Head(F.MAJOR_MAP, 2), F.TextItem("h"),
               F.BytesItem(header), F.TextItem(tag), payload);
  }

  lemma SevenStand(
      a1: seq<Byte>, a2: seq<Byte>, s1: seq<Byte>, s2: seq<Byte>, s3: seq<Byte>, s4: seq<Byte>, s5: seq<Byte>)
    ensures var inner := s1 + s2 + s3 + s4 + s5;
            var b, start := a1 + a2 + inner, |a1| + |a2|;
            && At(b, 0, a1) && At(b, |a1|, a2) && At(b, start, inner) && At(b, start, s1)
            && At(b, start + |s1|, s2) && At(b, start + |s1| + |s2|, s3) && At(b, start + |s1| + |s2| + |s3|, s4)
            && At(b, start + |s1| + |s2| + |s3| + |s4|, s5) && |b| == start + |s1| + |s2| + |s3| + |s4| + |s5|
  {
    hide At;
    var inner := s1 + s2 + s3 + s4 + s5;
    var b, start := a1 + a2 + inner, |a1| + |a2|;
    WholeStands(b);
    AtSplit(b, 0, a1 + a2, inner);
    AtSplit(b, 0, a1, a2);
    AtSplit(b, start, s1 + s2 + s3 + s4, s5);
    AtSplit(b, start, s1 + s2 + s3, s4);
    AtSplit(b, start, s1 + s2, s3);
    AtSplit(b, start, s1, s2);
  }

  lemma WholeStands(b: seq<Byte>)
    ensures At(b, 0, b)
  {
  }

  /** Reading a token of these parts gives them back, for any tag that is accepted. */
  lemma TokenIsRead(
      lib: CidLibrary, signature: seq<Byte>, header: Varsig.Header, tag: string, payload: Ipld, rc: bool)
    requires lib.Lawful() && |signature| <= ALLOCATION_LIMIT && |Utf8.Encode(tag)| <= ALLOCATION_LIMIT
    requires FromTag(tag, rc).Some? && payload.Map? && Allocated(payload) && F.WriteItem(lib, payload, 0).Ok?
    requires |TokenBytes(signature, header, tag, F.WriteItem(lib, payload, 0).value)| <= ALLOCATION_LIMIT
    ensures ReadParts(lib, TokenBytes(signature, header, tag, F.WriteItem(lib, payload, 0).value), rc)
         == Ok(Parts(signature, |F.Head(F.MAJOR_ARRAY, 2)| + |F.BytesItem(signature)|, Varsig.Encode(header), header,
                     tag, FromTag(tag, rc).value, Normal(payload)))
  {
    HeaderLength(header);
    TextLength("h");
    hide F.Head, F.BytesItem, F.TextItem, F.ReadHeadOf, F.ReadBytes, F.ReadText, F.ReadItem, F.WriteItem, At,
      Utf8.Encode, Varsig.Encode, Varsig.Decode, FromTag, SigPayloadBytes, Token, Allocated;
    var body := F.WriteItem(lib, payload, 0).value;
    var headerBytes := Varsig.Encode(header);
    var b := TokenBytes(signature, header, tag, body);
    TokenPieces(signature, headerBytes, tag, body);
    var p1 := |F.Head(F.MAJOR_ARRAY, 2)|;
    var start := p1 + |F.BytesItem(signature)|;
    var p2 := start + |F.Head(F.MAJOR_MAP, 2)|;
    var p3 := p2 + |F.TextItem("h")|;
    var p4 := p3 + |F.BytesItem(headerBytes)|;
    var p5 := p4 + |F.TextItem(tag)|;
    HeadIsRead(b, 0, F.MAJOR_ARRAY, 2);
    C.ReadWrittenBytes(b, p1, signature);
    HeadIsRead(b, start, F.MAJOR_MAP, 2);
    C.ReadWrittenText(b, p2, "h");
    C.ReadWrittenBytes(b, p3, headerBytes);
    Varsig.DecodeExactlyEncode(headerBytes, header);
    C.ReadWrittenText(b, p4, tag);
    C.ReadWritten(lib, payload, 0, b, p5);
  }

  lemma {:induction false} PrintableIsNormal(v: Ipld, depth: nat)
    requires JP.Printable(v, depth)
    ensures Normal(v) == v
    decreases v
  {
    match v
    case List(items) =>
      forall i | 0 <= i < |items| ensures Normal(items[i]) == items[i] { PrintableIsNormal(items[i], depth + 1); }
      assert Normal(v).items == items;
    case Map(m) =>
      forall k | k in m ensures Normal(m[k]) == m[k] { PrintableIsNormal(m[k], depth + 1); }
      assert Normal(v).entries == m;
    case _ =>
  }

  lemma TagNames(kind: TokenKind, rc: bool)
    ensures FromTag(Tag(kind), rc) == Some(kind)
  {
    assert "ucan/dlg@1.0.0"[5] == 'd' && "ucan/inv@1.0.0"[5] == 'i';
  }

  lemma TagLength(kind: TokenKind)
    ensures |Tag(kind)| > 4 && |Utf8.Encode(Tag(kind))| <= ALLOCATION_LIMIT
  {
    hide Utf8.Encode;
    TextLength(Tag(kind));
  }

  /** What `Prepare` gives: the second element's bytes, and the same or the text of the same value to sign. */
  lemma PreparedBytes(lib: CidLibrary, header: Varsig.Header, kind: TokenKind, payload: Ipld)
    requires lib.Lawful() && Allocated(payload)
    ensures |Varsig.Encode(header)| <= ALLOCATION_LIMIT && |Utf8.Encode(Tag(kind))| <= ALLOCATION_LIMIT
    ensures Prepare(lib, header, kind, payload).Ok? ==>
            var u, body := Prepare(lib, header, kind, payload).value, F.WriteItem(lib, payload, 0);
            var text := J.Encode(lib, SigPayload(Varsig.Encode(header), Tag(kind), payload));
            && body.Ok? && F.WriteItem(lib, payload, 1) == body
            && u.sigPayload == SigPayloadBytes(Varsig.Encode(header), Tag(kind), body.value)
            && if header.encoding.DagCbor? then u.signing == u.sigPayload
               else text.Ok? && u.signing == Utf8.Encode(text.value)
  {
    hide F.WriteItem, Allocated, Utf8.Encode, Varsig.Encode, SigPayloadBytes, SigPayload, J.Encode, Tag;
    SigPayloadIsAllocated(header, kind, payload);
    HeaderLength(header);
    TagLength(kind);
    if Prepare(lib, header, kind, payload).Ok? {
      WriteSigPayload(lib, Varsig.Encode(header), Tag(kind), payload);
      WriteShallower(lib, payload, 0);
    }
  }

  /**
   * A payload is prepared exactly when it can be encoded inside the envelope and, for a text signer,
   * printed there too.
   */
  lemma PrepareDomain(lib: CidLibrary, header: Varsig.Header, kind: TokenKind, payload: Ipld)
    requires lib.Lawful() && Allocated(payload)
    ensures Prepare(lib, header, kind, payload).Ok? <==>
            C.Encodable(payload, 1) && (header.encoding.DagJson? ==> JP.Printable(payload, 1))
  {
    hide F.WriteItem, Allocated, Utf8.Encode, Varsig.Encode, SigPayloadBytes, SigPayload, J.PrintItem, Tag,
      C.Encodable, JP.Printable;
    SigPayloadIsAllocated(header, kind, payload);
    HeaderLength(header);
    TagLength(kind);
    TagIsPlain(kind);
    var headerBytes := Varsig.Encode(header);
    WriteSigPayload(lib, headerBytes, Tag(kind), payload);
    C.WriteDomain(lib, payload, 1);
    JP.PrintDomain(lib, SigPayload(headerBytes, Tag(kind), payload), 0);
    EntryPrintable(headerBytes, Tag(kind), payload);
  }

  lemma TagIsPlain(kind: TokenKind)
    ensures Tag(kind) != "h" && Tag(kind) != "/"
  {
  }

  /** A second element in binary is not taken for a text. */
  lemma BinaryIsNotText(lib: CidLibrary, header: seq<Byte>, tag: string, payload: seq<Byte>)
    requires lib.Lawful() && |header| <= ALLOCATION_LIMIT && |Utf8.Encode(tag)| <= ALLOCATION_LIMIT
    requires |SigPayloadBytes(header, tag, payload)| <= ALLOCATION_LIMIT
    ensures Converted(lib, SigPayloadBytes(header, tag, payload)) == Ok(SigPayloadBytes(header, tag, payload))
  {
    hide F.TextItem, F.BytesItem, Utf8.Encode;
    assert F.Head(F.MAJOR_MAP, 2) == [0xa2];
    assert SigPayloadBytes(header, tag, payload)[0] == 0xa2;
  }

  lemma TextHasNoFloats(lib: CidLibrary, header: seq<Byte>, tag: string, payload: Ipld)
    requires J.Encode(lib, SigPayload(header, tag, payload)).Ok? && tag != "h" && tag != "/"
    ensures Normal(payload) == payload
  {
    hide J.PrintItem, Normal, JP.Printable;
    var v := SigPayload(header, tag, payload);
    JP.PrintDomain(lib, v, 0);
    EntryPrintable(header, tag, payload);
    PrintableIsNormal(payload, 1);
  }

  lemma EntryPrintable(header: seq<Byte>, tag: string, payload: Ipld)
    requires tag != "h" && tag != "/"
    ensures JP.Printable(SigPayload(header, tag, payload), 0) <==> JP.Printable(payload, 1)
  {
    var m := map["h" := Bytes(header), tag := payload];
    assert m[tag] == payload && "h" != "/";
    assert JP.Printable(Bytes(header), 1);
  }

  /** The token is no larger than a buffer can be. */
  predicate TokenFits(signature: seq<Byte>, sigPayload: seq<Byte>)
    requires |signature| <= ALLOCATION_LIMIT
  {
    |sigPayload| <= ALLOCATION_LIMIT && |Token(signature, sigPayload)| <= ALLOCATION_LIMIT
  }

  /**
   * A token assembled from what was prepared, with a signature of the right length, opens to the same
   * header, kind and payload, and verifying it checks the signature over exactly the bytes to be signed.
   */
  lemma SealedOpens(
      lib: CidLibrary, header: Varsig.Header, kind: TokenKind, payload: Ipld, signature: seq<Byte>)
    requires lib.Lawful() && Allocated(payload) && payload.Map?
    requires |signature| == header.algorithm.SignatureLen() <= ALLOCATION_LIMIT
    ensures var prepared := Prepare(lib, header, kind, payload);
            prepared.Ok? && TokenFits(signature, prepared.value.sigPayload) ==>
              var u, r := prepared.value, Assemble(lib, prepared.value.sigPayload, signature);
              && r.Ok?
              && var (e, found) := r.value;
                 && e.header == header && e.kind == kind && found == Normal(payload)
                 && e.signature == Signature(header.algorithm, signature)
                 && e.bytes == Token(signature, u.sigPayload) && Message(e) == Ok(u.signing)
  {
    hide F.WriteItem, Allocated, Utf8.Encode, Varsig.Encode, SigPayloadBytes, SigPayload, J.Encode, Tag, ReadParts,
      FromTag, F.Head, F.BytesItem, Normal, Prepare, Token;
    var prepared := Prepare(lib, header, kind, payload);
    if prepared.Err? || !TokenFits(signature, prepared.value.sigPayload) { return; }
    var u := prepared.value;
    PreparedBytes(lib, header, kind, payload);
    TagNames(kind, false);
    var headerBytes, body := Varsig.Encode(header), F.WriteItem(lib, payload, 0).value;
    var b := Token(signature, u.sigPayload);
    TokenParts(signature, u.sigPayload);
    BinaryIsNotText(lib, headerBytes, Tag(kind), body);
    assert b == TokenBytes(signature, header, Tag(kind), body);
    TokenIsRead(lib, signature, header, Tag(kind), payload, false);
    TagIsPlain(kind);
    if header.encoding.DagJson? { TextHasNoFloats(lib, headerBytes, Tag(kind), payload); }
  }

  /** Where the second element stands. */
  lemma TokenParts(signature: seq<Byte>, sigPayload: seq<Byte>)
    requires |signature| <= ALLOCATION_LIMIT
    ensures var b, start := Token(signature, sigPayload), |F.Head(F.MAJOR_ARRAY, 2)| + |F.BytesItem(signature)|;
            && start <= |b| && b[start..|b|] == sigPayload
            && |sigPayload| <= |b|
  {
    hide F.Head;
  }

  /**
   * For a text signer, assembling from the signed text gives the very token that assembling from the
   * binary form gives, exactly when the parser's depth covers the text.
   */
  lemma TextAgrees(lib: CidLibrary, header: Varsig.Header, kind: TokenKind, payload: Ipld, signature: seq<Byte>)
    requires lib.Lawful() && Allocated(payload) && header.encoding.DagJson? && |signature| <= ALLOCATION_LIMIT
    ensures var prepared := Prepare(lib, header, kind, payload);
            (prepared.Ok? && |prepared.value.signing| <= ALLOCATION_LIMIT
             && |prepared.value.sigPayload| <= ALLOCATION_LIMIT) ==>
              Assemble(lib, prepared.value.signing, signature) ==
              if JP.Fits(SigPayload(Varsig.Encode(header), Tag(kind), payload), 0)
              then Assemble(lib, prepared.value.sigPayload, signature) else Err(Codec(NestingTooDeep))
  {
    hide F.WriteItem, Allocated, Varsig.Encode, SigPayloadBytes, J.PrintItem, Tag, Open, Token, JP.Fits, J.Decode,
      Utf8.Encode, SigPayload;
    var prepared := Prepare(lib, header, kind, payload);
    if prepared.Err? || |prepared.value.signing| > ALLOCATION_LIMIT || |prepared.value.sigPayload| > ALLOCATION_LIMIT {
      return;
    }
    var u := prepared.value;
    SigPayloadIsAllocated(header, kind, payload);
    var value := SigPayload(Varsig.Encode(header), Tag(kind), payload);
    PreparedBytes(lib, header, kind, payload);
    SigPayloadIsMap(Varsig.Encode(header), Tag(kind), payload);
    BinaryIsNotText(lib, Varsig.Encode(header), Tag(kind), F.WriteItem(lib, payload, 0).value);
    JP.DecodeEncode(lib, value);
    MapTextOpens(lib, value);
  }

  lemma SigPayloadIsMap(header: seq<Byte>, tag: string, payload: Ipld)
    ensures SigPayload(header, tag, payload).Map?
  {
  }

  lemma MapTextOpens(lib: CidLibrary, v: Ipld)
    requires v.Map? && J.Encode(lib, v).Ok?
    ensures var b := Utf8.Encode(J.Encode(lib, v).value); b != [] && b[0] == '{' as int
  {
    hide J.PrintEntries, J.SortedKeys;
    var text := J.Encode(lib, v).value;
    assert text[0] == '{';
    assert Utf8.EncodeChar('{') == [0x7b];
  }

  // What opening accepts

  lemma HeadWasRead(b: seq<Byte>, pos: nat, major: int)
    requires pos <= |b| && F.ReadHeadOf(b, pos, major).Ok?
    ensures 0 <= major < 7
    ensures var (n, next) := F.ReadHeadOf(b, pos, major).value; b[pos..next] == F.Head(major, n)
  {
    hide F.Head, F.ReadHead;
    C.WriteReadHead(b, pos);
  }

  lemma SevenPieces(b: seq<Byte>, p1: nat, p2: nat, p3: nat, p4: nat, p5: nat, p6: nat)
    requires p1 <= p2 <= p3 <= p4 <= p5 <= p6 <= |b|
    ensures b == b[0..p1] + b[p1..p2] + (b[p2..p3] + b[p3..p4] + b[p4..p5] + b[p5..p6] + b[p6..|b|])
  {
    assert b[p2..p3] + b[p3..p4] == b[p2..p4];
    assert b[p2..p4] + b[p4..p5] == b[p2..p5];
    assert b[p2..p5] + b[p5..p6] == b[p2..p6];
    assert b[p2..p6] + b[p6..|b|] == b[p2..|b|];
    assert b[0..p1] + b[p1..p2] == b[0..p2];
    assert b[0..p2] + b[p2..|b|] == b;
  }

  /** The parts that opening reads, put together again, are the token: nothing else opens to them. */
  lemma ReadPartsExactly(lib: CidLibrary, b: seq<Byte>, rc: bool)
    requires lib.Lawful() && |b| <= ALLOCATION_LIMIT
    ensures ReadParts(lib, b, rc).Ok? ==>
            var p := ReadParts(lib, b, rc).value;
            && |p.signature| <= ALLOCATION_LIMIT && |Utf8.Encode(p.tag)| <= ALLOCATION_LIMIT
            && FromTag(p.tag, rc) == Some(p.kind) && p.headerBytes == Varsig.Encode(p.header)
            && p.start == |F.Head(F.MAJOR_ARRAY, 2)| + |F.BytesItem(p.signature)|
            && p.payload.Map? && Allocated(p.payload) && Normal(p.payload) == p.payload
            && F.WriteItem(lib, p.payload, 0).Ok?
            && b == TokenBytes(p.signature, p.header, p.tag, F.WriteItem(lib, p.payload, 0).value)
  {
    hide F.WriteItem, F.ReadItem, F.ReadText, F.ReadBytes, F.ReadHeadOf, F.Head, F.TextItem, F.BytesItem, Allocated,
      Normal, Utf8.Encode, Varsig.Encode, Varsig.Decode, FromTag;
    if ReadParts(lib, b, rc).Err? { return; }
    var p := ReadParts(lib, b, rc).value;
    var (_, p1) := F.ReadHeadOf(b, 0, F.MAJOR_ARRAY).value;
    var (_, start) := F.ReadBytes(b, p1).value;
    var (_, p2) := F.ReadHeadOf(b, start, F.MAJOR_MAP).value;
    var (_, p3) := F.ReadText(b, p2).value;
    var (_, p4) := F.ReadBytes(b, p3).value;
    var (_, p5) := F.ReadText(b, p4).value;
    HeadWasRead(b, 0, F.MAJOR_ARRAY);
    C.WriteReadBytes(b, p1);
    HeadWasRead(b, start, F.MAJOR_MAP);
    C.WriteReadText(b, p2);
    C.WriteReadBytes(b, p3);
    Varsig.DecodeExactlyEncode(p.headerBytes, p.header);
    C.WriteReadText(b, p4);
    C.WriteRead(lib, b, p5, 0);
    SevenPieces(b, p1, start, p2, p3, p4, p5);
    TextLength("h");
    HeaderLength(p.header);
  }

  lemma StrictTag(tag: string, kind: TokenKind)
    requires FromTag(tag, false) == Some(kind)
    ensures tag == Tag(kind)
  {
  }

  /** Under the strict rules header, signature, kind and payload determine the token's bytes. */
  lemma OpenInjective(lib: CidLibrary, a: seq<Byte>, b: seq<Byte>)
    requires lib.Lawful() && |a| <= ALLOCATION_LIMIT && |b| <= ALLOCATION_LIMIT
    ensures Open(lib, a, false).Ok? && Open(lib, b, false).Ok? ==>
            var (d, x) := Open(lib, a, false).value;
            var (e, y) := Open(lib, b, false).value;
            (d.header == e.header && d.signature == e.signature && d.kind == e.kind && x == y <==> a == b)
  {
    hide Open, ReadParts, TokenBytes, F.WriteItem, Allocated, Normal, Tag;
    if Open(lib, a, false).Ok? && Open(lib, b, false).Ok? {
      OpenedIsToken(lib, a);
      OpenedIsToken(lib, b);
    }
  }

  lemma OpenedIsToken(lib: CidLibrary, b: seq<Byte>)
    requires lib.Lawful() && |b| <= ALLOCATION_LIMIT
    ensures Open(lib, b, false).Ok? ==>
            var (e, payload) := Open(lib, b, false).value;
            && |e.signature.bytes| <= ALLOCATION_LIMIT && |Utf8.Encode(Tag(e.kind))| <= ALLOCATION_LIMIT
            && Allocated(payload) && F.WriteItem(lib, payload, 0).Ok?
            && b == TokenBytes(e.signature.bytes, e.header, Tag(e.kind), F.WriteItem(lib, payload, 0).value)
  {
    hide ReadParts, TokenBytes, FromTag, F.WriteItem, Allocated, J.Encode, SigPayload, Normal;
    ReadPartsExactly(lib, b, false);
    if Open(lib, b, false).Ok? {
      var p := ReadParts(lib, b, false).value;
      StrictTag(p.tag, p.kind);
    }
  }

  /** What `message` signs: the second element of the token with these parts, in the header's encoding. */
  ghost predicate SignsParts(
      lib: CidLibrary, message: Result<seq<Byte>, EnvelopeError>, header: Varsig.Header, kind: TokenKind,
      payload: Ipld)
    requires lib.Lawful() && Allocated(payload)
  {
    HeaderLength(header);
    TagLength(kind);
    var body := F.WriteItem(lib, payload, 0);
    var text := J.Encode(lib, SigPayload(Varsig.Encode(header), Tag(kind), payload));
    && body.Ok?
    && if header.encoding.DagCbor? then message == Ok(SigPayloadBytes(Varsig.Encode(header), Tag(kind), body.value))
       else text.Ok? && message == Ok(Utf8.Encode(text.value))
  }

  /**
   * Any opened token is verified over the second element of its own parts. Where those can be prepared
   * again, which one nested to the limit cannot, that is what preparing gives to be signed.
   */
  lemma OpenedMessage(lib: CidLibrary, b: seq<Byte>)
    requires lib.Lawful() && |b| <= ALLOCATION_LIMIT
    ensures Open(lib, b, false).Ok? ==>
            var (e, payload) := Open(lib, b, false).value;
            && Allocated(payload) && SignsParts(lib, Message(e), e.header, e.kind, payload)
            && (Prepare(lib, e.header, e.kind, payload).Ok? ==>
                  Message(e) == Ok(Prepare(lib, e.header, e.kind, payload).value.signing))
  {
    hide ReadParts, FromTag, F.WriteItem, F.Head, F.BytesItem, Allocated, J.Encode, SigPayload, Normal, Prepare,
      SigPayloadBytes, Token, Varsig.Encode, Utf8.Encode, Tag;
    if Open(lib, b, false).Err? { return; }
    var (e, payload) := Open(lib, b, false).value;
    ReadPartsExactly(lib, b, false);
    var p := ReadParts(lib, b, false).value;
    StrictTag(p.tag, p.kind);
    HeaderLength(e.header);
    TokenParts(p.signature, SigPayloadBytes(Varsig.Encode(e.header), Tag(e.kind), F.WriteItem(lib, payload, 0).value));
    PreparedBytes(lib, e.header, e.kind, payload);
  }

  /** The signature of an opened token is of its header's algorithm, and of that algorithm's length. */
  lemma OpenedSignature(lib: CidLibrary, b: seq<Byte>, rc: bool)
    ensures Open(lib, b, rc).Ok? ==>
            var (e, _) := Open(lib, b, rc).value;
            && e.signature.algorithm == e.header.algorithm
            && |e.signature.bytes| == e.header.algorithm.SignatureLen()
  {
    hide ReadParts, J.Encode;
  }

  /**
   * An opened token verifies under a key exactly when the key is of the header's algorithm and accepts
   * the token's signature over the second element of its own parts. Any other key of that algorithm
   * refuses it, and a key of another algorithm is told apart.
   */
  lemma VerifyExactly(lib: CidLibrary, b: seq<Byte>, key: PublicKey, m: seq<Byte>)
    requires lib.Lawful() && |b| <= ALLOCATION_LIMIT
    ensures Open(lib, b, false).Ok? ==> Allocated(Open(lib, b, false).value.1)
    ensures (Open(lib, b, false).Ok?
             && var (e, payload) := Open(lib, b, false).value;
                SignsParts(lib, Ok(m), e.header, e.kind, payload)) ==>
            var e := Open(lib, b, false).value.0;
            && (Verify(e, key) == Ok(()) <==> key.algorithm == e.header.algorithm && key.accepts(m, e.signature))
            && (Verify(e, key) == Err(NotVerified) <==>
                  key.algorithm == e.header.algorithm && !key.accepts(m, e.signature))
            && (key.algorithm != e.header.algorithm ==>
                  Verify(e, key) == Err(AlgorithmMismatch(key.algorithm, e.header.algorithm)))
  {
    hide Open, Prepare, Message, F.WriteItem, Allocated, J.Encode, SigPayload, SigPayloadBytes, Varsig.Encode,
      Utf8.Encode, Tag;
    OpenedMessage(lib, b);
  }

  /** A tag names a kind exactly when it is the kind's own, or its release candidate's and those are asked for. */
  lemma KindOfTag(tag: string, kind: TokenKind, rc: bool)
    ensures FromTag(tag, rc) == Some(kind) <==> tag == Tag(kind) || (rc && tag == Tag(kind) + "-rc.1")
    ensures Tag(Delegation) == "ucan/dlg@1.0.0" && Tag(Invocation) == "ucan/inv@1.0.0"
  {
    assert Tag(Delegation)[5] == 'd' && Tag(Invocation)[5] == 'i';
    assert (Tag(Delegation) + "-rc.1")[5] == 'd' && (Tag(Invocation) + "-rc.1")[5] == 'i';
    assert Tag(Delegation) + "-rc.1" == "ucan/dlg@1.0.0-rc.1";
    assert Tag(Invocation) + "-rc.1" == "ucan/inv@1.0.0-rc.1";
  }

  /** A token sealed with a key's own signature verifies under that key. */
  lemma SealedVerifies(lib: CidLibrary, signer: Signer, kind: TokenKind, payload: Ipld, key: PublicKey)
    requires lib.Lawful() && Allocated(payload) && payload.Map?
    requires key.algorithm == signer.algorithm && signer.Proper()
    requires forall m :: key.accepts(m, Signature(signer.algorithm, signer.sign(m)))
    requires var u := Prepare(lib, Varsig.Header(signer.algorithm, Varsig.DagCbor), kind, payload);
             u.Ok? && |u.value.sigPayload| <= ALLOCATION_LIMIT
             && |Token(signer.sign(u.value.signing), u.value.sigPayload)| <= ALLOCATION_LIMIT
    ensures var sealed := Seal(lib, signer, kind, payload);
            && sealed.Ok? && Verify(sealed.value, key) == Ok(())
            && sealed.value.kind == kind && sealed.value.signature.algorithm == signer.algorithm
  {
    hide Prepare, Assemble, Message, Token, Allocated;
    var header := Varsig.Header(signer.algorithm, Varsig.DagCbor);
    var u := Prepare(lib, header, kind, payload).value;
    SealedOpens(lib, header, kind, payload, signer.sign(u.signing));
  }
}
