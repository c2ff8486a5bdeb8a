/** The IPLD data model, content identifiers, and the errors the codecs share. */
module IpldModel {
  import opened Wrappers
  import Utf8

  /**
   * What sets one content identifier apart. There are only so many: the library holds a version, two
   * 64-bit codes and a digest of at most 64 bytes, which this many bytes are room for.
   */
  type CidIdentity = b: seq<Byte> | |b| <= 96

  /** A content identifier, known only through its byte and text forms. */
  datatype Cid = Cid(id: CidIdentity)

  /**
   * The CID library. `toBytes` and `toText` are the forms it writes, `ofBytes` and `ofText`
   * its parsers, which may accept more than those forms.
   */
  datatype CidLibrary = CidLibrary(
    toBytes: Cid -> seq<Byte>,
    ofBytes: seq<Byte> -> Option<Cid>,
    toText: Cid -> string,
    ofText: string -> Option<Cid>)
  {
    /** What the codecs rely on: the library reads back what it writes. */
    ghost predicate Lawful() {
      forall cid ::
        && ofBytes(toBytes(cid)) == Some(cid)
        && ofText(toText(cid)) == Some(cid)
        && |toBytes(cid)| < ALLOCATION_LIMIT
        && forall c :: c in toText(cid) ==> PlainCharacter(c)
    }

    /** A CID from exactly these bytes. */
    function FromBytes(raw: seq<Byte>): Option<Cid> {
      match ofBytes(raw)
      case Some(cid) => if toBytes(cid) == raw then Some(cid) else None
      case None => None
    }

    /** A CID whose text form is exactly this text. */
    function FromText(text: string): Option<Cid> {
      match ofText(text)
      case Some(cid) => if toText(cid) == text then Some(cid) else None
      case None => None
    }
  }

  /** The multibase alphabets of CID text, base32 and base58btc, hold letters and digits only. */
  predicate PlainCharacter(c: char) {
    'a' <= c <= 'z' || 'A' <= c <= 'Z' || '0' <= c <= '9'
  }

  /** A value. A float is its 64 bits, so that -0.0 and 0.0 stay apart. */
  datatype Ipld =
    | Null
    | Bool(flag: bool)
    | Integer(i: I128)
    | Float(bits: U64)
    | String(text: string)
    | Bytes(bytes: seq<Byte>)
    | List(items: seq<Ipld>)
    | Map(entries: map<string, Ipld>)
    | Link(cid: Cid)

  const NEGATIVE_ZERO: U64 := 0x8000_0000_0000_0000

  /** `f64::is_finite`: the eleven exponent bits are not all ones. */
  predicate Finite(bits: U64) {
    bits / 0x10_0000_0000_0000 % 0x800 != 0x7ff
  }

  /** The value with every -0.0 replaced by 0.0, which is what encoding keeps of it. */
  function Normal(v: Ipld): Ipld {
    match v
    case Float(bits) => if bits == NEGATIVE_ZERO then Float(0) else v
    case List(items) => List(seq(|items|, i requires 0 <= i < |items| => Normal(items[i])))
    case Map(m) => Map(map k | k in m :: Normal(m[k]))
    case _ => v
  }

  /** No buffer in the value is larger than Rust can allocate. */
  ghost predicate Allocated(v: Ipld) {
    match v
    case String(text) => |Utf8.Encode(text)| <= ALLOCATION_LIMIT
    case Bytes(bytes) => |bytes| <= ALLOCATION_LIMIT
    case List(items) => |items| <= ALLOCATION_LIMIT && forall i :: 0 <= i < |items| ==> Allocated(items[i])
    case Map(m) =>
      && |m| <= ALLOCATION_LIMIT
      && forall k :: k in m ==> |Utf8.Encode(k)| <= ALLOCATION_LIMIT && Allocated(m[k])
    case _ => true
  }

  /** Deepest nesting a codec follows in either direction. */
  const MAX_DEPTH: int := 128

  datatype CodecError =
    | UnexpectedEnd
    | TrailingBytes
    | IndefiniteLength
    | NonMinimalInteger
    | IntegerOutOfRange
    | InvalidFloat
    | InvalidUtf8
    | NonStringKey
    | UnsortedKeys
    | DuplicateKey
    | UnsupportedTag(tag: U64)
    | InvalidCid
    | UnsupportedSimple
    | Reserved
    | NestingTooDeep
    | LengthTooLarge
    | InvalidVarint
    | UnexpectedType
    | InvalidJson
    | NotCanonical
    | FloatInText
    | ReservedKey
    | InvalidBase64
}
