/** A CID library that keeps the law asked of one: the identity as bytes, and two letters a byte as text. */
module CidExample {
  import opened Wrappers
  import opened IpldModel

  function Letters(bytes: seq<Byte>): string {
    if bytes == [] then ""
    else [('a' as int + bytes[0] / 16) as char, ('a' as int + bytes[0] % 16) as char] + Letters(bytes[1..])
  }

  function Nibble(c: char): Option<nat> {
    if 'a' <= c <= 'p' then Some(c as int - 'a' as int) else None
  }

  function Unlettered(text: string): Option<seq<Byte>> {
    if text == "" then Some([])
    else if |text| == 1 then None
    else match (Nibble(text[0]), Nibble(text[1]), Unlettered(text[2..]))
      case (Some(high), Some(low), Some(rest)) => Some([high * 16 + low] + rest)
      case _ => None
  }

  lemma {:induction false} UnletteredLetters(bytes: seq<Byte>)
    ensures Unlettered(Letters(bytes)) == Some(bytes)
    ensures forall c :: c in Letters(bytes) ==> PlainCharacter(c)
  {
    if bytes != [] {
      var text, b: int := Letters(bytes), bytes[0];
      UnletteredLetters(bytes[1..]);
      assert text[2..] == Letters(bytes[1..]);
      assert b / 16 * 16 + b % 16 == b;
      assert [bytes[0]] + bytes[1..] == bytes;
    }
  }

  function Identified(bytes: Option<seq<Byte>>): Option<Cid> {
    if bytes.Some? && |bytes.value| <= 96 then Some(Cid(bytes.value)) else None
  }

  function Library(): CidLibrary {
    CidLibrary((cid: Cid) => cid.id, bytes => Identified(Some(bytes)), (cid: Cid) => Letters(cid.id),
               text => Identified(Unlettered(text)))
  }

  /** So the law can be kept. */
  lemma LibraryIsLawful()
    ensures Library().Lawful()
  {
    hide Letters, Unlettered;
    var lib := Library();
    forall cid: Cid
      ensures lib.ofBytes(lib.toBytes(cid)) == Some(cid) && lib.ofText(lib.toText(cid)) == Some(cid)
      ensures |lib.toBytes(cid)| < ALLOCATION_LIMIT && forall c :: c in lib.toText(cid) ==> PlainCharacter(c)
    {
      UnletteredLetters(cid.id);
    }
  }
}
