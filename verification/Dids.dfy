/** Decentralized identifiers, as far as validation looks at them. */
module Dids {

  datatype Did = Did(text: string)

  /** Where the path, query or fragment begins. */
  function BaseEnd(text: string): (end: nat)
    ensures end <= |text|
  {
    if text == "" || text[0] in {'/', '?', '#'} then 0 else 1 + BaseEnd(text[1..])
  }

  /** `did:method:id` without the parts of a DID URL. */
  function Base(did: Did): string {
    did.text[..BaseEnd(did.text)]
  }

  predicate SamePrincipal(a: Did, b: Did) {
    Base(a) == Base(b)
  }

  /** What ends the base of a DID URL, section 3.2 of the DID recommendation. */
  predicate EndsBase(c: char) {
    c == '/' || c == '?' || c == '#'
  }

  /** The base holds none of those, and is all there is or has one right after it. */
  lemma {:induction false} BaseEndExactly(text: string, end: nat)
    ensures BaseEnd(text) == end <==>
            && end <= |text| && (forall i :: 0 <= i < end ==> !EndsBase(text[i]))
            && (end < |text| ==> EndsBase(text[end]))
    decreases |text|
  {
    if text != "" && !EndsBase(text[0]) {
      if end > 0 { BaseEndExactly(text[1..], end - 1); }
      assert forall i :: 0 < i < |text| ==> text[i] == text[1..][i - 1];
    }
  }

  /** DIDs of one base, whatever path, query or fragment follows it, are one principal; others are not. */
  lemma SameBase(base: string, other: string, rest: string, more: string)
    requires (forall c :: c in base ==> !EndsBase(c)) && (forall c :: c in other ==> !EndsBase(c))
    requires (rest == "" || EndsBase(rest[0])) && (more == "" || EndsBase(more[0]))
    ensures SamePrincipal(Did(base + rest), Did(other + more)) <==> base == other
  {
    BaseEndExactly(base + rest, |base|);
    BaseEndExactly(other + more, |other|);
  }
}
