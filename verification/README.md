# A verified model of pq-ucan

This Dafny project models the hard core of a UCAN 1.0 library (capability tokens with delegation chains) and
proves what the library claims for it. `dafny verify dfyconfig.toml` checks it.

Four parts are modelled, over one data type of IPLD values (`IpldModel.Ipld`).

**Strict codecs** (`CborFormat`, `CborProofs`, `CborLaws`, `Cbor`; `JsonFormat`, `JsonProofs`, `JsonSizes`, `Json`;
`Base64`; `Varint`; `Varsig`, `VarsigLaws`). Each codec is given twice: as functions that say what bytes or text a
value has and what a position in some input reads as, and as the writers, cursors and loops of the code, proved to
follow those functions, errors included. About the functions it is proved that every value has one encoding and every
accepted input one value. DAG-CBOR follows section 3 of RFC 8949 with the key order of section 4.2.3; DAG-JSON strings
follow section 7 of RFC 8259; base64 follows section 4 of RFC 4648. UTF-8 is not assumed: `Utf8` defines it and proves
it a bijection onto the accepted bytes. The JSON parser counts two levels for bytes and one for a link that the
printer does not count, so the round trip holds exactly within the parser's own depth (`JsonProofs.Fits`), and that is
how it is stated.

**The policy engine** (`Selector`, `SelectorParser`, `SelectorProofs`, `Glob`, `Numbers`, `FloatLaws`, `Equality`,
`Policy`, `PolicyProofs`, `PolicyLaws`). The selector parser equals an explicit unambiguous grammar; the glob
matcher's last-star backtracking equals a declarative match of the pattern text; integers and floats compare as real
numbers. Binary64 values are their 64 bits: `Numbers` defines their exact value in units of 2^-1074, rounding to
nearest even and truncation, so that `int_float` is modelled with its casts. On all of `i128` the comparison is not
exact: `Numbers.IntFloatExactWhen` gives the exact condition and `Numbers.CollidingFloat` a float for every integer
outside it. On values from the wire deep equality is an equivalence that no policy can see through.

**Chain validation, revocation and replay** (`Dids`, `Commands`, `Time`, `Validation`, `ValidationProofs`,
`ValidationLaws`, `StoreProofs`, `RevocationCheck`, `RevocationProofs`, `RevocationLaws`, `Validating`, `Revoker`).
The pipeline is an ordered plan of checks whose answer is the first failure; the loops of the code are proved to
follow the plan, and the plan is proved equal to one declarative conjunction. The mutable stores are classes. Results
over whole runs are about sequences of steps: at-most-once execution, pruning that never shows, and the reach and
scope of revocations.

**The envelope** (`EnvelopeFormat`, `EnvelopeProofs`, `Sealing`). What is signed is what is verified, from either form
of signing, and opening accepts nothing but the canonical bytes of its parts.

The modules whose names end in `Laws` say what the functions of the model mean without naming how they compute it:
laws between statements and between segments, what the bits of a float are worth, what each refusal asserts of a
chain, known encodings byte by byte.

## Conventions

- The CID library is a parameter (`IpldModel.CidLibrary`): its byte and text writers and its parsers, assumed only
  to read back what they write, to write text of letters and digits, and to keep CID bytes in the allocation limit.
  A CID is one of finitely many, as the library's are, and `CidExample` has a library that keeps the law;
  `EnvelopeExample` meets everything the envelope's theorems ask for.
- `Allocated` says that no buffer in a value exceeds what Rust can allocate; it is asked of values handed to the
  encoder and proved of values that decoding gives. `usize` is 64 bits wide.
- Text is a sequence of characters, so positions in JSON count characters where the code counts bytes; every
  delimiter and escape is ASCII, and the one place that takes a number of bytes (`hex4`) is modelled in bytes.
- `Dids.SamePrincipal`, resolvers, keys and signature backends: a DID is its text and its base; a signature check is
  an uninterpreted function that always gives the same answer.
- The position of a reader or parser, and what a writer has appended, are left open after an error, as the code
  never looks at them again.
- Where `validate` and `check_revocation` ask a proof store, a resolver or a revocation store through a trait
  object, the model has a function in `Validation.Config`; `StoreProofs.LookupIn` and `Validation.Asking` are the
  answers of the in-memory stores.

## Where the code and its documentation differ

The model follows the code. Each point has a lemma with an input and one with the exact condition.

- `docs/validation.md:90` says `any` needs at least one element; the code lets an empty collection pass
  (src/policy/mod.rs:252-254). `PolicyProofs.AnyExactly` says that this is all; `PolicyProofs.DocumentedOtherwise` has
  an input.
- `docs/validation.md:92` says a selector that fails to resolve makes its statement false; under `!=` it makes it
  true (src/policy/mod.rs:236-238): `PolicyProofs.UnresolvedExactly`, with an input in
  `PolicyProofs.DocumentedOtherwise`.
- The table in `docs/validation.md:37-38` lists principal alignment before command attenuation as if each ran over
  the whole chain; the code checks both hop by hop (src/validate.rs:620-642). `ValidationProofs.OrderShows` says
  exactly when the answer differs, which is never between acceptance and refusal; `ValidationProofs.OrderExample` has
  a chain.
- The selector grammar in `docs/validation.md:98-100` puts a dot in front of the segments, so that a name in front
  brings a second one. `SelectorProofs.AcceptedIsDocumented` and `SelectorProofs.DocumentedIsAccepted` say exactly how
  that and the parser differ; `SelectorProofs.FooAndDottedFoo` has `.foo` and `..foo`.
- `\u` in selectors and in JSON strings goes through `from_str_radix`, which takes a leading `+`
  (src/policy/selector.rs:213-221, src/codec/json.rs:283-291): `Numerals.Radix16Accepts` is the condition,
  `SelectorProofs.PlusExample` and `JsonProofs.PlusExample` have inputs. In JSON such a text then fails as not
  canonical: `JsonProofs.PlusIsNotCanonical`.
- `docs/validation.md:84` and src/policy/mod.rs:345 compare an integer with a float by value. Over all of `i128` that
  fails exactly outside the condition of `Numbers.IntFloatExactWhen`, and `Numbers.PastLargeCollides` has such
  an integer and float. No integer that can be on the wire is outside it: `Numbers.IntFloatExact`.
- src/codec/json.rs:7 says the decoder accepts exactly what the encoder emits. The parser counts bytes as two levels
  and links as one where the printer counts none (src/codec/json.rs:37-54, src/codec/json.rs:158-211), so the deepest
  printed texts do not decode: `JsonProofs.PrintedButTooDeep` has two, `JsonProofs.DecodeEncode` the exact condition.

## Model

| member | source | states |
|---|---|---|
| `CborProofs.DecodeExactlyEncode` | src/codec/decode.rs:11-16 | `decode(b)` is `v` exactly when `v` has no -0.0 and `encode(v)` is `b`, byte for byte |
| `CborProofs.DecodeInjective` | src/codec/mod.rs:3-7 | no two byte strings decode to one value |
| `CborProofs.EncodeSeparates` | src/codec/encode.rs:80-88 | two encodable values share an encoding exactly when they differ at most in the sign of zeros |
| `CborProofs.EncodeNormal` | src/codec/encode.rs:25-29 | what is encoded decodes to the same value with -0.0 replaced, and that value has the same encoding |
| `CborProofs.WriteDomain` | src/codec/encode.rs:72-133 | encoding succeeds exactly on nesting up to 128, integers in [-2^64, 2^64-1] and finite floats |
| `CborProofs.ReadWritten` | src/codec/decode.rs:172-267 | an encoding standing anywhere in the input, whatever follows, is read as its value and the reader stops at its end |
| `CborProofs.WriteRead` | src/codec/decode.rs:126-267 | whatever bytes the reader consumes for a value are the bytes the encoder writes for it |
| `CborProofs.ReadWrittenHead` | src/codec/decode.rs:126-170 | a written head reads back as its major type and argument |
| `CborProofs.WriteReadHead` | src/codec/decode.rs:126-170 | a head that is read is the shortest one, so it is the head that would be written |
| `CborProofs.EntriesAreCanonical` | src/codec/decode.rs:228-249 | entries whose keys strictly ascend are the encoder's listing of the map they make, none lost or repeated |
| `CborProofs.ReadWrittenEntries` | src/codec/decode.rs:228-249 | entries written in canonical order pass the reader's order check and read back in that order |
| `CborProofs.WriteReadEntries` | src/codec/encode.rs:99-113 | writing a map in the order its entries were read gives the bytes back |
| `CborFormat.ReadBigEndian` | src/codec/decode.rs:136-170 | a big-endian argument reads back as itself |
| `CborFormat.WriteBigEndian` | src/codec/encode.rs:37-59 | big-endian bytes are those of the number they hold |
| `KeyOrder.LengthFirstIsStrictTotal` | src/codec/decode.rs:270-274 | the canonical key order is a strict total order |
| `KeyOrder.BytewiseIsStrictTotal` | src/codec/encode.rs:99-107 | the order of a BTreeMap of strings is a strict total order |
| `KeyOrder.OrdersDiffer` | src/codec/mod.rs:3-7 | it is not the canonical order: two keys that the two orders rank oppositely |
| `KeyOrder.LengthFirstExactly` | src/codec/decode.rs:270-274 | of two keys the shorter in bytes comes first, and of one length the one with the smaller byte where they first differ |
| `CborLaws.KeysInOrderOfItems` | src/codec/decode.rs:270-274 | that is the bytewise order of the encoded keys, as section 4.2.1 of RFC 8949 has it |
| `KeyOrder.BytewiseExactly` | src/codec/encode.rs:99-107 | of two strings a proper prefix comes first, else the one with the smaller byte where they first differ |
| `KeyOrder.BytewiseByScalar` | src/codec/encode.rs:99-107 | which is their order by scalars |
| `CborLaws.HeadIsShortest` | src/codec/encode.rs:37-58 | a head has its major type on top and denotes its argument, in no more bytes than that needs |
| `CborLaws.MajorTypes` | src/codec/encode.rs:72-121 | each kind of value begins with its own major type |
| `CborLaws.KnownIntegers` | src/codec/encode.rs:123-132 | integers of each length, positive and negative, byte by byte |
| `CborLaws.KnownLeaves` | src/codec/encode.rs:72-121 | short byte strings and texts, the simple values and floats, byte by byte |
| `CborLaws.KnownLink` | src/codec/encode.rs:114-120 | a link is tag 42 around a zero byte and the CID |
| `KeyOrder.Listing` | src/codec/encode.rs:99-107 | sorting a key set gives an ascending listing of exactly that set |
| `KeyOrder.ListingUnique` | src/codec/encode.rs:99-107 | a key set has only one ascending listing |
| `KeyOrder.KeyCount` | src/codec/encode.rs:108-108 | an ascending listing is as long as its key set |
| `Utf8.DecodeEncode` | src/codec/decode.rs:78-85 | text survives its own UTF-8 encoding |
| `Utf8.EncodeDecode` | src/codec/decode.rs:78-85 | accepted bytes are the UTF-8 encoding of the text they give |
| `Utf8.KnownScalars` | src/codec/decode.rs:78-85 | a scalar of each length, byte by byte |
| `Utf8.LeadTellsLength` | src/codec/decode.rs:78-85 | the first byte tells how many there are |
| `Cbor.WriteHead` | src/codec/encode.rs:37-58 | appends the shortest head |
| `Cbor.WriteBytes` | src/codec/encode.rs:61-64 | appends a byte string item |
| `Cbor.WriteText` | src/codec/encode.rs:67-70 | appends a text item |
| `Cbor.WriteInteger` | src/codec/encode.rs:123-132 | appends the integer, or fails outside the 65-bit range |
| `Cbor.WriteItem` | src/codec/encode.rs:72-121 | appends the canonical bytes of the value, or fails with the format's error |
| `Cbor.WriteItems` | src/codec/encode.rs:91-96 | the loop over a list appends all of its items |
| `Cbor.WriteEntries` | src/codec/encode.rs:109-112 | the loop over sorted entries appends each key and value |
| `Cbor.Encode` | src/codec/encode.rs:25-29 | returns the canonical bytes or the error |
| `Cbor.Reader.Take` | src/codec/decode.rs:105-117 | advances by `n` bytes, or fails on position overflow and on short input |
| `Cbor.Reader.Argument` | src/codec/decode.rs:136-170 | reads an argument, refusing every form longer than needed |
| `Cbor.Reader.Head` | src/codec/decode.rs:126-134 | reads a head and stops after it |
| `Cbor.Reader.Item` | src/codec/decode.rs:172-203 | reads the value the format gives and stops where it ends |
| `Cbor.Reader.Items` | src/codec/decode.rs:184-190 | the loop over an array's items |
| `Cbor.Reader.Entries` | src/codec/decode.rs:228-249 | the loop over a map's entries, with its check of the key before |
| `Cbor.Reader.Key` | src/codec/decode.rs:232-243 | a key must come after the previous one; equal and smaller keys fail differently |
| `Cbor.Reader.Simple` | src/codec/decode.rs:205-226 | the simple values and floats that are allowed |
| `Cbor.Reader.ReadLink` | src/codec/decode.rs:251-266 | a tag 42 byte string whose CID has only those bytes |
| `Cbor.Decode` | src/codec/decode.rs:11-16 | returns one value spanning the whole input, or the error |
| `CidExample.LibraryIsLawful` | src/cid.rs:44-64 | the law asked of the CID library can be kept: a library that keeps it |
| `JsonProofs.DecodeEncode` | src/codec/json.rs:158-211 | decoding printed text gives the value back exactly when the parser's own depth count allows it, else it fails as too deep |
| `JsonProofs.DecodeExactlyEncode` | src/codec/json.rs:24-35 | `decode(b)` is `v` exactly when `b` is the canonical text of `v` and the parser has the depth for it |
| `JsonProofs.PrintedButTooDeep` | src/codec/json.rs:37-54 | bytes inside 127 lists and a link inside 128 print but do not decode |
| `JsonProofs.EncodeInjective` | src/codec/json.rs:3-8 | distinct values have distinct texts, at any depth the printer accepts |
| `JsonProofs.DecodeInjective` | src/codec/json.rs:3-8 | no two texts decode to one value |
| `JsonProofs.PrintDomain` | src/codec/json.rs:37-87 | printing succeeds exactly without floats and `/` keys, on integers in range, nested up to 128 |
| `JsonProofs.ReadPrinted` | src/codec/json.rs:158-311 | printed text anywhere before a delimiter reads back as its value up to exactly its end |
| `JsonProofs.ReadGivesPrintable` | src/codec/json.rs:158-311 | a parsed value is within both depth counts and never has what the printer refuses |
| `JsonProofs.ParsedIsDecodedOrNotCanonical` | src/codec/json.rs:30-33 | re-encoding never fails on a parsed value; the text is accepted exactly when it is canonical |
| `JsonProofs.ReadPrintedChars` | src/codec/json.rs:97-118 | string escapes are undone, whatever characters the string holds |
| `JsonProofs.ReadPrintedInteger` | src/codec/json.rs:213-235 | a printed integer reads back, and nothing before a delimiter is taken for part of it |
| `JsonProofs.ReadPrintedBytes` | src/codec/json.rs:294-311 | the reserved form of bytes reads back at two extra levels |
| `JsonProofs.ReadPrintedLink` | src/codec/json.rs:294-311 | the reserved form of a link reads back at one extra level |
| `JsonProofs.PlusIsNotCanonical` | src/codec/json.rs:283-290 | `"\u+xyz"` with any three hexadecimal digits is refused as not canonical |
| `JsonProofs.PlusIsRead` | src/codec/json.rs:283-290 | although the parser reads it as the scalar the three digits name |
| `JsonProofs.PlusExample` | src/codec/json.rs:283-290 | `"\u+041"` is read as the text `A` and refused |
| `JsonProofs.KnownTexts` | src/codec/json.rs:37-87 | null, true, false, an empty list and two byte strings, character by character |
| `JsonProofs.SurrogatesAreRead` | src/codec/json.rs:255-281 | two escapes that are the UTF-16 units of a scalar are read as that scalar |
| `JsonProofs.LoneSurrogate` | src/codec/json.rs:255-281 | a low surrogate, and a high one without another escape, are refused |
| `Numerals.HexDigitExactly` | src/codec/json.rs:283-290 | hexadecimal digits are those of either case, in order |
| `Numerals.ScalarExactly` | src/policy/selector.rs:205-221 | a code is that of one character, or of none |
| `Numerals.Radix16Accepts` | src/policy/selector.rs:205-221 | four characters are read as a number exactly when all are hexadecimal digits, or the last three after a plus sign |
| `JsonSizes.DecodedIsAllocated` | src/envelope.rs:134-139 | text is never shorter than what it says, so a decoded value fits in memory when its text does |
| `Json.PrintItem` | src/codec/json.rs:37-87 | appends the canonical text of the value, or fails with the format's error |
| `Json.PrintItems` | src/codec/json.rs:57-66 | the loop over a list appends all items, commas between them |
| `Json.PrintEntries` | src/codec/json.rs:67-82 | the loop over a map appends all entries in key order, commas between them |
| `Json.PrintString` | src/codec/json.rs:97-118 | appends the quoted string, each character escaped as needed |
| `Json.CheckRange` | src/codec/json.rs:90-95 | accepts exactly the DAG-CBOR integers |
| `Json.Encode` | src/codec/json.rs:17-21 | returns the canonical text or the error |
| `Json.Parser.Value` | src/codec/json.rs:158-211 | reads the value the format gives and stops where it ends |
| `Json.Parser.Items` | src/codec/json.rs:174-189 | the loop over a list |
| `Json.Parser.Entries` | src/codec/json.rs:191-210 | the loop over a map, refusing a repeated key |
| `Json.Parser.Number` | src/codec/json.rs:213-235 | the digit scan reads the integer or names the right error |
| `Json.Parser.StringValue` | src/codec/json.rs:237-253 | run by run, the loop reads the same string as character by character |
| `Json.Parser.Run` | src/codec/json.rs:241-247 | finds the next special character, so everything before it stands for itself |
| `Json.Parser.Escape` | src/codec/json.rs:255-281 | an escape, with surrogate pairs joined and lone surrogates refused |
| `Json.Parser.Hex4` | src/codec/json.rs:283-290 | four bytes of hexadecimal digits |
| `Json.Reserve` | src/codec/json.rs:294-311 | a `/` map is a link or bytes and nothing else |
| `Json.Decode` | src/codec/json.rs:24-35 | returns the value, or the first of the errors in order |
| `Numerals.DecimalOfText` | src/codec/json.rs:44-47 | the decimal text of a number denotes that number |
| `Base64.DecodeEncode` | src/codec/json.rs:315-351 | decoding undoes encoding for every byte string |
| `Base64.EncodeDecode` | src/codec/json.rs:331-351 | accepted text is the re-encoding of its result but for the unused low bits of the last symbol |
| `Base64.AcceptedExactly` | src/codec/json.rs:331-351 | text is accepted exactly when every symbol is in the alphabet and no single symbol is left over |
| `Base64.SymbolIsInTable` | src/codec/json.rs:312-327 | the symbols are those of table 1 of RFC 4648 |
| `Base64.KnownTexts` | src/codec/json.rs:315-327 | the examples of section 10 of RFC 4648 |
| `Base64.RegisterStep` | src/codec/json.rs:339-344 | the low bits of a 32-bit register stay right although its high bits fall off |
| `Base64.EncodeChunk` | src/codec/json.rs:316-327 | the symbols of one chunk, computed from its 24-bit group |
| `Base64.EncodeLoop` | src/codec/json.rs:315-329 | the loop over chunks gives the encoding |
| `Base64.DecodeLoop` | src/codec/json.rs:331-351 | the loop with the truncating register gives the decoding |
| `Varint.ReadExactlyPut` | src/codec/varint.rs:7-42 | reading gives a value and length exactly when that value's own bytes stand at the front, whatever follows |
| `Varint.PutDenotes` | src/codec/varint.rs:7-17 | the bytes are the number in groups of seven bits, lowest first, all but the last marked and no zero group at the end |
| `Varint.PutUvarint` | src/codec/varint.rs:7-17 | the shifting loop appends the minimal form |
| `Varint.ReadUvarint` | src/codec/varint.rs:22-42 | the accumulating loop reads it, refusing overlong and oversized forms |
| `Varsig.DecodeExactlyEncode` | src/varsig.rs:103-145 | a header decodes from exactly the bytes it encodes to |
| `Varsig.ReadAllExactlyPutAll` | src/varsig.rs:122-129 | a byte string holds at most one list of varints |
| `Varsig.FindBySegments` | src/varsig.rs:148-160 | no two algorithms share a segment list |
| `VarsigLaws.CurveHeaders` | src/varsig.rs:148-154 | the header bytes of each algorithm on a curve, in either encoding |
| `VarsigLaws.LatticeHeaders` | src/varsig.rs:155-160 | and of each one on a lattice |
| `VarsigLaws.SegmentsNameKey` | src/varsig.rs:148-160 | the segments hold the multicodec of the key, and no two algorithms have one in common |
| `VarsigLaws.SignatureLengths` | src/crypto/mod.rs:88-95 | the length of a signature follows from the parameters of its algorithm |
| `VarsigLaws.InterpretRefuses` | src/varsig.rs:115-144 | segments are refused as truncated, unknown, unsupported or with an unsupported encoding exactly as each is so |
| `Varsig.EncodeHeader` | src/varsig.rs:103-112 | returns the header's bytes |
| `Varsig.DecodeHeader` | src/varsig.rs:115-144 | the consuming loop returns the header or the error |
| `Glob.Matches` | src/policy/glob.rs:62-89 | the backtracking loop answers the declarative match of the pattern text, in at most (|input|+1)(|tokens|+1) turns |
| `Glob.LastStarIsEnough` | src/policy/glob.rs:72-83 | going back to the last star only loses no match |
| `Glob.TokensMean` | src/policy/glob.rs:31-52 | collapsing a run of stars changes nothing |
| `Glob.StarIsAnyRun` | src/policy/glob.rs:4-5 | a star matches exactly the runs of any length |
| `Glob.QuotedMeansItself` | src/policy/glob.rs:31-52 | every text is spelled by itself with its stars escaped, and that matches nothing else |
| `Glob.QuotedBeginning` | src/policy/glob.rs:31-52 | with a star after it, it matches exactly what begins with it |
| `Glob.Parse` | src/policy/glob.rs:31-52 | compiles the pattern to its tokens |
| `Numbers.PartialCompareExact` | src/policy/mod.rs:327-334 | on wire numbers comparison is exact comparison of the real values, so a total preorder |
| `Numbers.IntFloatExact` | src/policy/mod.rs:345-356 | an integer of the wire range and a finite float compare as real numbers do |
| `Numbers.IntFloatExactWhen` | src/policy/mod.rs:345-356 | over all of i128 the comparison with every finite float is exact if and only if the integer rounds below 10^38 in magnitude or rounds to itself |
| `Numbers.CollidingFloat` | src/policy/mod.rs:345-356 | for any other integer gives a float that compares equal and is not |
| `Numbers.PastLargeRounds` | src/policy/mod.rs:345-356 | the integer after the double nearest 10^38 rounds to that double |
| `Numbers.PastLargeCollides` | src/policy/mod.rs:345-356 | so that integer is outside the condition, and a finite float that it is not compares equal to it |
| `FloatLaws.Smallest` | src/policy/mod.rs:345-356 | no bits are zero, one bit is one unit, and so is the gap above zero and above the smallest normal float |
| `FloatLaws.GapIsConstant` | src/policy/mod.rs:345-356 | floats of one exponent are equally far apart, and the subnormals as far as the smallest normals |
| `FloatLaws.GapDoubles` | src/policy/mod.rs:345-356 | with each further exponent they are twice as far apart |
| `FloatLaws.OrderOfBits` | src/policy/mod.rs:345-356 | floats that are not negative are ordered as their bits are |
| `FloatLaws.SignNegates` | src/policy/mod.rs:345-356 | the sign bit negates |
| `FloatLaws.OneIsOne` | src/policy/mod.rs:345-356 | the bits of 1.0 are worth one |
| `FloatLaws.FiniteBelowInfinity` | src/policy/mod.rs:345-356 | past the sign, finite floats come below infinity and what is no number above it |
| `FloatLaws.SmallIntegerIsFloat` | src/policy/mod.rs:345-356 | every integer up to 2^53 in magnitude is a float |
| `FloatLaws.SmallFloatCompares` | src/policy/mod.rs:345-356 | such a float compares with every integer as that integer does |
| `FloatLaws.ComparedExactlyWhen` | src/policy/mod.rs:327-334 | there is no answer exactly for what is not a number and for an integer and an infinity |
| `FloatLaws.RoundsToNearest` | src/policy/mod.rs:345-356 | no double is nearer to an integer than the one it is rounded to |
| `FloatLaws.TiesToEven` | src/policy/mod.rs:345-356 | and midway the one with an even last bit is taken |
| `FloatLaws.LargeIsNearest` | src/policy/mod.rs:349-349 | the bound is the double nearest to 10^38 |
| `Equality.EqualReflexive` | src/policy/mod.rs:279-294 | deep equality holds of every wire value and itself |
| `Equality.EqualSymmetric` | src/policy/mod.rs:279-294 | deep equality is symmetric on wire values |
| `Equality.EqualTransitive` | src/policy/mod.rs:279-294 | deep equality is transitive on wire values, maps included |
| `Equality.EqualExactly` | src/policy/mod.rs:279-294 | wire values are deeply equal exactly when they are the same but for how their numbers are written |
| `Selector.TreeExactlyDerives` | src/policy/selector.rs:42-107 | the parser gives a derivation exactly when the text has it in the grammar, so the grammar is unambiguous |
| `Selector.ParseExactlyDerived` | src/policy/selector.rs:42-107 | a text parses to segments exactly when it derives them |
| `Selector.ReadBracket` | src/policy/selector.rs:147-173 | a bracket ends past its start and within the text |
| `SelectorProofs.DocumentedIsAccepted` | src/policy/selector.rs:42-107 | a text of the documented grammar is accepted exactly when no second dot follows the first, and else refused as a double dot |
| `SelectorProofs.AcceptedIsDocumented` | src/policy/selector.rs:42-107 | an accepted text is one of the documented grammar exactly when no name comes first |
| `SelectorProofs.FooAndDottedFoo` | src/policy/selector.rs:42-107 | `.foo` is accepted and not of the documented grammar, `..foo` the reverse |
| `SelectorProofs.PlusInKey` | src/policy/selector.rs:194-234 | `\u+xyz` in a quoted key is the scalar its three digits name |
| `SelectorProofs.PlusExample` | src/policy/selector.rs:194-234 | `.["\u+041"]` selects the key `A` |
| `SelectorProofs.EscapesAsInJson` | src/policy/selector.rs:194-234 | a letter escapes in a quoted key exactly what it escapes in JSON |
| `SelectorProofs.IdentifierCharacters` | src/policy/selector.rs:137-143 | names are made of ASCII letters, digits and underscores and do not begin with a digit |
| `SelectorProofs.KnownSelector` | src/policy/selector.rs:42-107 | `.a[-1]?[2:][]` is a key, an optional last item, a slice and the values |
| `SelectorParser.Parse` | src/policy/selector.rs:42-107 | the state machine over characters gives the grammar's answer and errors |
| `SelectorParser.Integer` | src/policy/selector.rs:175-192 | the integer helper: optional minus, digits, i64 range |
| `SelectorParser.Quoted` | src/policy/selector.rs:194-234 | the quoted key helper, escapes included |
| `SelectorParser.Bracket` | src/policy/selector.rs:147-173 | keys, indices, slices and the bare brackets |
| `Policy.ResolveSelector` | src/policy/selector.rs:118-134 | the loop over segments finds what the segments find one by one |
| `Policy.ResolveFailsWhen` | src/policy/selector.rs:118-133 | resolution fails exactly when the first segment that does not apply is not optional |
| `Policy.SliceHolds` | src/policy/selector.rs:270-281 | a slice keeps exactly the positions between its bounds, negative ones counted from the end |
| `PolicyLaws.KeyFinds` | src/policy/selector.rs:236-260 | a key finds the value last put under it, and no other key is touched by that |
| `PolicyLaws.KeyMissing` | src/policy/selector.rs:236-260 | a key the map lacks finds null, and only maps have keys |
| `PolicyLaws.IndexFinds` | src/policy/selector.rs:236-260 | an item is found by how many come before it and by how many come after it |
| `PolicyLaws.IndexFindsByte` | src/policy/selector.rs:236-260 | so is a byte |
| `PolicyLaws.IndexFails` | src/policy/selector.rs:262-268 | an index finds something exactly within the length, from either end, of a list or of bytes |
| `PolicyLaws.SliceIsBetween` | src/policy/selector.rs:270-281 | a slice between two joints is what stands between them |
| `PolicyLaws.SliceIsBetweenBytes` | src/policy/selector.rs:270-281 | the same for bytes |
| `PolicyLaws.SliceReaches` | src/policy/selector.rs:270-281 | bounds outside the items reach to the end they lie beyond, and crossed bounds hold nothing |
| `PolicyLaws.ValuesInKeyOrder` | src/policy/selector.rs:236-260 | the values of a map stand in the order of its keys as strings |
| `PolicyLaws.ValuesOfOthers` | src/policy/selector.rs:236-260 | those of a list are the list, and nothing else has any |
| `PolicyLaws.ResolveAppend` | src/policy/selector.rs:118-134 | segments are followed in turn |
| `PolicyLaws.FailureEnds` | src/policy/selector.rs:118-134 | a failing optional segment gives null whatever follows, any other nothing |
| `Policy.WireFormIsFaithful` | src/policy/mod.rs:102-227 | a value reads as a statement exactly when the statement is parsed and writes that value verbatim |
| `Policy.PolicyWireFormIsFaithful` | src/policy/mod.rs:43-58 | the same for a whole policy list |
| `PolicyLaws.WireComparisons` | src/policy/mod.rs:102-227 | from the wire to the answer: each comparison sign means that relation of real numbers |
| `PolicyLaws.WireConnectives` | src/policy/mod.rs:102-227 | from the wire to the answer: `and`, `or`, `not` and their empty lists |
| `PolicyLaws.WireQuantifiers` | src/policy/mod.rs:102-227 | from the wire to the answer: `all` and `any` over whatever statement stands in them |
| `PolicyLaws.WireLike` | src/policy/mod.rs:102-227 | from the wire to the answer: `like` with a text spelled out |
| `PolicyLaws.ReadRefuses` | src/policy/mod.rs:102-227 | why a value is no statement, for every shape it can have |
| `Policy.Check` | src/policy/mod.rs:62-67 | passes exactly when every statement holds, else names the first that does not |
| `PolicyProofs.HoldsAlike` | src/policy/mod.rs:231-256 | a statement holds of both or neither of two deeply equal wire values, so no policy tells 1 from 1.0 |
| `PolicyLaws.AndIsPolicy` | src/policy/mod.rs:246-246 | `and` of a list holds exactly when the list passes as a policy |
| `PolicyLaws.AndOfLists` | src/policy/mod.rs:246-246 | `and` of two lists together is both, of one statement that one, of none true |
| `PolicyLaws.NotFlips` | src/policy/mod.rs:248-248 | `not` turns every statement round |
| `PolicyLaws.OrByAnd` | src/policy/mod.rs:247-247 | `or` holds exactly of an empty list and where `and` of the negations fails |
| `PolicyLaws.AllByAny` | src/policy/mod.rs:249-254 | wherever there is something to range over, `all` fails exactly when `any` finds a counterexample |
| `PolicyLaws.AllIsEach` | src/policy/mod.rs:249-251 | `all` holds exactly when the statement holds of each element |
| `PolicyLaws.ElementsAre` | src/policy/mod.rs:267-275 | the elements are the items of a list, the values of a map, and otherwise none at all |
| `PolicyLaws.OrderingsMean` | src/policy/mod.rs:259-264 | the four orderings hold exactly when a number is found that stands in that order to the given one as real numbers |
| `PolicyLaws.EqualBetweenOrderings` | src/policy/mod.rs:231-256 | `==` with a number is `<=` and `>=` together |
| `PolicyLaws.EqualMeans` | src/policy/mod.rs:231-256 | `==` holds exactly when what is found is worth the same, part by part, and `!=` exactly when not |
| `PolicyLaws.LikeSpelled` | src/policy/mod.rs:243-245 | `like` with a spelled text holds exactly of that string |
| `PolicyLaws.LikeBeginning` | src/policy/mod.rs:243-245 | and with a star after it exactly of the strings that begin with it |
| `PolicyProofs.CheckAlike` | src/policy/mod.rs:62-67 | a policy passes, or names the same statement, for both of them |
| `PolicyProofs.ResolveAlike` | src/policy/selector.rs:118-134 | selectors find deeply equal values in deeply equal values, or nothing in either |
| `PolicyProofs.ComparedByValue` | src/policy/mod.rs:259-264 | an ordering statement compares the real value of what the selector finds |
| `PolicyProofs.AnyExactly` | src/policy/mod.rs:249-255 | `any` holds exactly when some element satisfies the statement or the collection is empty |
| `PolicyProofs.UnresolvedExactly` | src/policy/mod.rs:231-256 | a statement that tests what one selector finds holds, when the selector finds nothing, exactly if it is a `!=` |
| `PolicyProofs.DocumentedOtherwise` | src/policy/mod.rs:231-256 | `any` over an empty list and `!=` on a key of null both hold |
| `PolicyProofs.DecodedOnWire` | src/codec/decode.rs:11-16 | decoding gives wire values only |
| `PolicyProofs.ReadOnWire` | src/policy/mod.rs:102-198 | statements read from wire values hold wire values only |
| `Commands.CoversIsSegmentPrefix` | src/command.rs:58-72 | one command covers another exactly when its segments come first in the other's |
| `Commands.CoversTransitive` | src/command.rs:64-72 | covering is transitive |
| `Commands.CoversAntisymmetric` | src/command.rs:64-72 | commands that cover each other are the same |
| `Commands.ParsesExactlyJoined` | src/command.rs:18-37 | a text parses exactly when nothing is uppercase and it is the root or non-empty segments each after a slash |
| `Commands.ParseRefuses` | src/command.rs:18-37 | and otherwise which of the five reasons is given, exactly |
| `Time.WindowIsUnsaturated` | src/time.rs:37-99 | saturation never shows: the window is `[nbf - skew, exp + skew]` over all integers |
| `Time.WindowErrors` | src/time.rs:37-99 | which bound is named: the lower one whenever it fails, else the upper one |
| `Time.PastStays` | src/time.rs:74-79 | what is past stays past later and with no more skew |
| `ValidationProofs.JudgeAcceptsExactly` | src/validate.rs:470-553 | the pipeline accepts a chain exactly when root authority, alignment, segment-prefix commands, unsaturated windows, signatures, revocation, policies and executor all hold of it |
| `ValidationProofs.JudgeRefusesWithFirst` | src/validate.rs:470-553 | any other answer is the first failing check in the order of the code, with its hop |
| `ValidationLaws.FailureExactly` | src/validate.rs:555-657 | a check fails with an error exactly when what the error says of the chain is so: which hop, whose DID, which command, which bound over all integers, which statement |
| `ValidationLaws.RefusedBecause` | src/validate.rs:470-553 | so a refusal over a resolved chain is the first complaint in the plan, in those terms |
| `ValidationLaws.ReplayExactly` | src/validate.rs:541-546 | a repeat is told as one exactly when nothing else speaks against it and it was seen |
| `ValidationLaws.ExecutorIs` | src/validate.rs:529-538 | the executor is the audience, and where none is given the subject |
| `Dids.SameBase` | src/did.rs:78-95 | DIDs are one principal exactly when they are the same up to path, query and fragment |
| `ValidationProofs.OrderShows` | src/validate.rs:620-643 | checking all audiences before all commands, as the documentation lists them, gives the same answer except exactly when a command is not covered before any audience fails and one fails later; then the two complain of different things |
| `ValidationProofs.OrderExample` | src/validate.rs:620-643 | a chain of two hops and both complaints |
| `ValidationProofs.FirstIsFirst` | src/validate.rs:620-643 | the answer of a list of checks is a failure before which every check passes |
| `ValidationProofs.AcceptedCommandsCover` | src/validate.rs:620-643 | every hop's command is a segment prefix of the invoked one |
| `ValidationProofs.CommandsNarrow` | src/validate.rs:636-642 | commands only narrow from any hop to any later one |
| `ValidationProofs.Attenuation` | src/validate.rs:470-553 | every non-empty proper prefix of an accepted chain is accepted for a fresh, timely, signed invocation of the same by the next hop's issuer |
| `ValidationProofs.AskingIsMonotone` | src/validate.rs:194-202 | asking about more issuers never revokes less |
| `StoreProofs.PruningKeepsVerdict` | src/validate.rs:183-190 | after pruning revocations, validation at any later time with no more skew answers exactly as before, error included |
| `StoreProofs.PruningProofsKeepsAcceptance` | src/validate.rs:75-78 | pruning expired delegations neither takes an acceptance away nor gives one |
| `StoreProofs.AnswersAsLogged` | src/validate.rs:160-203 | over any run of record, revoke and prune the store answers as an unpruned log, for delegations not lapsed at a prune |
| `StoreProofs.NeverMoreThanLogged` | src/validate.rs:160-203 | the store never revokes what the log does not, with no hypothesis at all |
| `StoreProofs.RevocationReaches` | src/validate.rs:567-586 | once a revocation of a target is recorded whose authority issued anywhere in a chain, or the target is revoked outright, no later validation accepts the chain |
| `StoreProofs.EntitledReaches` | src/validate.rs:194-203 | the subject and the target's issuer reach every chain that could be accepted |
| `StoreProofs.AcceptedAsLogged` | src/validate.rs:160-203 | over any run of records, revocations and prunes an invocation is accepted exactly when it would be without revocations and the plain log says nothing of its chain |
| `StoreProofs.RecordingReachesNoFurther` | src/validate.rs:160-173 | recording a revocation changes no verdict on chains its authority did not issue in |
| `StoreProofs.KeptUntilExpired` | src/validate.rs:160-190 | pruning keeps a recorded revocation until its target expires and no longer, and one of every chain for good |
| `StoreProofs.RecordTwice` | src/validate.rs:160-190 | recording again changes nothing, and each record adds just what it says |
| `StoreProofs.PrunedExactly` | src/validate.rs:75-112 | pruning the guard or the proofs drops exactly what expired by then |
| `StoreProofs.AtMostOnce` | src/validate.rs:506-546 | over any run of validations and prunes each invocation CID is accepted at most once |
| `StoreProofs.Remembered` | src/validate.rs:99-117 | an accepted invocation stays remembered until it is forgotten as expired |
| `StoreProofs.RejectedIsNotRecorded` | src/validate.rs:541-546 | a rejected invocation leaves the guard as it was |
| `RevocationProofs.CheckRevocationExactly` | src/validate/revocation.rs:205-263 | a revocation is accepted exactly when it is warranted: a signed, well-linked chain with distinct issuers rooted in the subject, ending in the target, an authority that issued in it with everything above in time and unrevoked, and the revoker being that authority or holding a validated grant from it |
| `RevocationLaws.RefusalIsTrue` | src/validate/revocation.rs:205-263 | whatever a refused revocation is told is so: which argument is missing, unknown or misformed, whose target, which hop repeats an issuer, who issued nowhere, what check complains of the chain, why the grant fails |
| `ValidationLaws.GrantRules` | src/validate/revocation.rs:267-280 | a grant is accepted by all the rules of an invocation but the one on who executes |
| `ValidationLaws.RevokeCommandIs` | src/validate/revocation.rs:17-17 | the command of a revocation has the segments ucan and revoke |
| `RevocationProofs.AcceptedRevocationReaches` | src/validate/revocation.rs:205-263 | from end to end: once an accepted revocation is recorded, no later validation accepts a chain that holds its target and continues the chain it was brought with, or any in which its authority issued |
| `RevocationProofs.VettedVerdict` | src/validate/revocation.rs:205-263 | when only accepted revocations were recorded, an invocation is accepted exactly when the log of them says nothing of its chain |
| `RevocationProofs.ReadExactly` | src/validate/revocation.rs:99-120 | a token reads as a revocation exactly when it is for that command and its arguments say just that |
| `RevocationProofs.RepeatExactly` | src/validate/revocation.rs:316-331 | the scan passes exactly when all issuers are distinct |
| `RevocationProofs.StandingExactly` | src/validate/revocation.rs:282-291 | standing holds exactly when every hop above is in time and unrevoked |
| `RevocationProofs.PruningKeepsRevocations` | src/validate/revocation.rs:282-291 | pruning never changes what the revocation check answers later |
| `Validating.MemoryStore.Insert` | src/validate.rs:51-55 | holds the delegation under its own CID |
| `Validating.MemoryStore.Remove` | src/validate.rs:58-60 | stops holding it and returns it |
| `Validating.MemoryStore.PruneExpired` | src/validate.rs:75-78 | drops what has expired |
| `Validating.MemoryReplayGuard.RecordSeen` | src/validate.rs:114-116 | records the CID and says whether it was new |
| `Validating.MemoryReplayGuard.PruneExpired` | src/validate.rs:108-110 | forgets what has expired |
| `Validating.MemoryRevocationStore.RecordAccepted` | src/validate.rs:160-170 | adds the authority unless the same principal is there, and sets the expiry |
| `Validating.MemoryRevocationStore.RevokeEverywhere` | src/validate.rs:175-177 | revokes in every chain, keeping what was recorded |
| `Validating.MemoryRevocationStore.PruneExpired` | src/validate.rs:183-190 | forgets lapsed targets but never what was revoked everywhere |
| `Validating.MemoryRevocationStore.Revokes` | src/validate.rs:194-202 | the scan answers whether some authority issued in the chain |
| `Validating.CheckStructure` | src/validate.rs:590-644 | the loops answer with the first structural failure in order |
| `Validating.CheckTimes` | src/validate.rs:499-504 | the loop over time bounds answers with the first failure |
| `Validating.VerifyChain` | src/validate.rs:555-562 | the loop over signatures answers with the first failure |
| `Validating.CheckRevocations` | src/validate.rs:567-585 | the loop asks about each hop with the issuers of the whole chain |
| `Validating.CheckPolicies` | src/validate.rs:519-528 | the loop over policies answers with the first hop and statement rejected |
| `Validating.Collect` | src/validate.rs:482-490 | resolves every proof or names the first that is missing |
| `Validating.ExamineChain` | src/validate.rs:492-538 | the checks on a resolved chain, in the order of the code, give the planned answer |
| `Validating.Examine` | src/validate.rs:470-538 | proof limit, lookup and then those checks give the pipeline's answer |
| `Validating.Validator.Validate` | src/validate.rs:470-553 | the same with the replay guard, which is written to only when everything else passed |
| `Revoker.ReadAll` | src/validate/revocation.rs:102-118 | the loop over all arguments |
| `Revoker.ReadRevocation` | src/validate/revocation.rs:99-120 | the revocation a token says, or the error |
| `Revoker.ReadLinks` | src/validate/revocation.rs:136-144 | the links of a path, or the error |
| `Revoker.CheckNamesChain` | src/validate/revocation.rs:295-314 | the target and path must name the chain |
| `Revoker.CheckNoIssuerRepeats` | src/validate/revocation.rs:316-331 | the double scan for a principal issuing twice |
| `Revoker.CheckStanding` | src/validate/revocation.rs:282-291 | the hops above must be in time and unrevoked |
| `Revoker.CheckGranted` | src/validate/revocation.rs:267-277 | runs a full validation without executor or guard |
| `Revoker.Check` | src/validate/revocation.rs:205-263 | the whole check in the order of the code |
| `EnvelopeProofs.SealedOpens` | src/envelope.rs:112-183 | assembling what was prepared opens to the same header, kind and payload, and the message to be verified is byte for byte what was to be signed |
| `EnvelopeProofs.TextAgrees` | src/envelope.rs:133-146 | assembling from the signed text gives the very token the binary form gives, exactly when the parser's depth covers the text |
| `EnvelopeProofs.ReadPartsExactly` | src/envelope.rs:149-168 | the parts that opening reads, put together again, are the token |
| `EnvelopeProofs.OpenedIsToken` | src/envelope.rs:149-185 | what opens under the strict rules is the canonical token of the signature, header, kind and payload it gives |
| `EnvelopeProofs.OpenInjective` | src/envelope.rs:149-185 | two tokens that open are the same bytes exactly when they open to the same header, signature, kind and payload |
| `EnvelopeProofs.PrepareDomain` | src/envelope.rs:112-127 | a payload is prepared exactly when it can be encoded inside the envelope and, for a text signer, printed there too |
| `EnvelopeProofs.OpenedMessage` | src/envelope.rs:169-201 | any opened token is verified over the second element made of its own header, kind and payload, in binary or as text by its header; where they can be prepared again that is what is signed |
| `EnvelopeProofs.VerifyExactly` | src/envelope.rs:189-203 | an opened token verifies exactly under a key of its header's algorithm that accepts its signature over the second element of its own parts; another key of that algorithm refuses it, and one of another algorithm is told apart |
| `EnvelopeProofs.OpenedSignature` | src/envelope.rs:168-168 | the signature of an opened token is of its header's algorithm and of that algorithm's length |
| `EnvelopeProofs.KindOfTag` | src/envelope.rs:42-50 | a tag names a kind exactly when it is the kind's own or, if those are asked for, its release candidate's |
| `EnvelopeProofs.SealedVerifies` | src/envelope.rs:104-203 | a sealed token verifies under a key that accepts its signer's signatures |
| `EnvelopeExample.SealsAndVerifies` | src/envelope.rs:104-203 | what these theorems ask for can be met: an empty payload is sealed under any algorithm and verifies |
| `EnvelopeProofs.WriteShallower` | src/envelope.rs:117-163 | a payload encoded inside the envelope has the same bytes as on its own, so depth does not show |
| `Sealing.Prepare` | src/envelope.rs:112-127 | returns what is signed and the binary element |
| `Sealing.Assemble` | src/envelope.rs:133-241 | fills the buffer and opens it, converting a text first |
| `Sealing.Open` | src/envelope.rs:149-185 | drives the mutable reader through the envelope in order |

## Left out

- Signature backends, SHA-256, base58 and the CID library itself: foreign code, parameters here. `Envelope` values
  carry no CID, and where a property needs it a CID is taken to fix the expiry of its token, as a stated hypothesis.
- `Did::parse`, `did:key` and DID documents: only the base of a DID and sameness of principals are modelled.
- Reading the payload fields of delegations and invocations, builders, accessors, `Display` and error wording, nonces,
  random numbers, the system clock, feature flags: field-by-field plumbing.
- Positions after an error: `Cbor.Reader` and `Json.Parser` say nothing of `pos` once a step has failed.
- `encode_into` and `to_dag_json`: compositions of modelled functions.
- Sorting of map entries before encoding: `CborFormat.CanonicalKeys` is the sorted listing, proved unique; the sort
  algorithm is the standard library's.
- Iteration order of a BTreeMap: `KeyOrder.Listing` under the bytewise order.
- The three `Proof` accessors: `Validate` returns the chain; subject and invocation are its inputs.
- Validator builder methods: a validator is made from its settings at once.
- Trait objects for stores: any pure answer is covered by `Validation.Config`; a store that changes its answers during
  one validation is not.
- What counts as an uppercase character: a parameter of `Commands.Parse`.
- Time and memory cost, except the bound on the glob matcher's turns.
