/** Decimal and hexadecimal numbers in text. */
module Numerals {
  import opened Wrappers

  predicate Digit(c: char) {
    '0' <= c <= '9'
  }

  function HexDigit(c: char): Option<nat> {
    if '0' <= c <= '9' then Some(c as int - '0' as int)
    else if 'a' <= c <= 'f' then Some(c as int - 'a' as int + 10)
    else if 'A' <= c <= 'F' then Some(c as int - 'A' as int + 10)
    else None
  }

  /** The digits of either case, in order. */
  lemma HexDigitExactly(c: char, x: nat)
    ensures HexDigit(c) == Some(x) <==> x < 16 && (c == "0123456789abcdef"[x] || c == "0123456789ABCDEF"[x])
  {
  }

  function HexDigits(text: string): Option<nat> {
    if text == [] then Some(0)
    else match (HexDigits(text[..|text| - 1]), HexDigit(text[|text| - 1]))
      case (Some(high), Some(low)) => Some(16 * high + low)
      case _ => None
  }

  /** `u32::from_str_radix(_, 16)` on four characters, which may open with a plus sign. */
  function Radix16(text: string): Option<nat> {
    if text != [] && text[0] == '+' then HexDigits(text[1..]) else HexDigits(text)
  }

  /** Four characters are read exactly when all are hexadecimal digits, or three after a plus sign. */
  lemma Radix16Accepts(text: string)
    requires |text| == 4
    ensures Radix16(text).Some? <==>
            (HexDigit(text[0]).Some? || text[0] == '+')
            && HexDigit(text[1]).Some? && HexDigit(text[2]).Some? && HexDigit(text[3]).Some?
  {
    hide HexDigit;
    assert HexDigit('+') == None by { HexOfPlus(); }
    HexAccepts(text);
    HexAccepts(text[1..]);
    if text[0] == '+' {
      assert forall i :: 0 <= i < 3 ==> text[1..][i] == text[i + 1];
    }
  }

  lemma HexOfPlus()
    ensures HexDigit('+') == None
  {
  }

  lemma {:induction false} HexAccepts(text: string)
    ensures HexDigits(text).Some? <==> forall i :: 0 <= i < |text| ==> HexDigit(text[i]).Some?
  {
    hide HexDigit;
    if text != [] {
      var front := text[..|text| - 1];
      HexAccepts(front);
      assert forall i :: 0 <= i < |front| ==> front[i] == text[i];
    }
  }

  lemma HexStep(text: string, c: char)
    requires HexDigits(text).Some? && HexDigit(c).Some?
    ensures HexDigits(text + [c]) == Some(16 * HexDigits(text).value + HexDigit(c).value)
  {
    assert (text + [c])[..|text|] == text;
  }

  /** The scalar three digits name. */
  function ThreeDigits(x: char, y: char, z: char): char
    requires HexDigit(x).Some? && HexDigit(y).Some? && HexDigit(z).Some?
  {
    (256 * HexDigit(x).value + 16 * HexDigit(y).value + HexDigit(z).value) as char
  }

  /** A plus sign and three digits are read as the digits alone. */
  lemma Radix16OfPlus(x: char, y: char, z: char)
    requires HexDigit(x).Some? && HexDigit(y).Some? && HexDigit(z).Some?
    ensures Radix16(['+', x, y, z]) == Some(ThreeDigits(x, y, z) as int)
    ensures ThreeDigits(x, y, z) as int < 0x1000
  {
    assert HexDigits([]) == Some(0);
    hide HexDigits, HexDigit;
    HexStep([], x);
    assert [] + [x] == [x];
    HexStep([x], y);
    assert [x] + [y] == [x, y];
    HexStep([x, y], z);
    assert [x, y] + [z] == [x, y, z];
    assert ['+', x, y, z][1..] == [x, y, z];
    HexBelow(x);
    HexBelow(y);
    HexBelow(z);
  }

  lemma HexBelow(c: char)
    requires HexDigit(c).Some?
    ensures HexDigit(c).value < 16 && c as int < 0x80
  {
  }

  /** `char::from_u32`. */
  function Scalar(code: nat): Option<char> {
    if code < 0xd800 || 0xe000 <= code < 0x11_0000 then Some(code as char) else None
  }

  /** A code is that of one character, or of none at all. */
  lemma ScalarExactly(code: nat, c: char)
    ensures Scalar(code) == Some(c) <==> code == c as int
  {
  }

  function Decimal(digits: string): nat
    requires forall c :: c in digits ==> Digit(c)
  {
    if digits == [] then 0
    else
      var last := digits[|digits| - 1];
      assert Digit(last);
      10 * Decimal(digits[..|digits| - 1]) + (last as int - '0' as int)
  }

  function DigitsEnd(chars: string, start: nat): (end: nat)
    requires start <= |chars|
    ensures start <= end <= |chars|
    ensures forall i :: start <= i < end ==> Digit(chars[i])
    ensures end < |chars| ==> !Digit(chars[end])
    decreases |chars| - start
  {
    if start < |chars| && Digit(chars[start]) then DigitsEnd(chars, start + 1) else start
  }

  lemma {:induction false} DigitsStop(chars: string, start: nat, end: nat)
    requires start <= end <= |chars| && (end < |chars| ==> !Digit(chars[end]))
    requires forall i :: start <= i < end ==> Digit(chars[i])
    ensures DigitsEnd(chars, start) == end
    decreases |chars| - start
  {
    if start < end { DigitsStop(chars, start + 1, end); }
  }

  lemma DigitsAreRead(chars: string, first: nat, digits: string)
    requires At(chars, first, digits) && (forall c :: c in digits ==> Digit(c))
    requires first + |digits| < |chars| ==> !Digit(chars[first + |digits|])
    ensures DigitsEnd(chars, first) == first + |digits| && chars[first..first + |digits|] == digits
    ensures digits != [] ==> Digit(chars[first])
  {
    AtHead(chars, first, digits);
    forall i | first <= i < first + |digits| ensures Digit(chars[i]) {
      assert chars[first + (i - first)] == digits[i - first];
    }
    DigitsStop(chars, first, first + |digits|);
  }

  /** The shortest decimal text of a natural number. */
  function DecimalText(n: nat): (text: string)
    ensures text != [] && forall c :: c in text ==> Digit(c)
  {
    var last := [(n % 10 + '0' as int) as char];
    if n < 10 then last else DecimalText(n / 10) + last
  }

  lemma {:induction false} DecimalOfText(n: nat)
    ensures Decimal(DecimalText(n)) == n
  {
    var text := DecimalText(n);
    if n < 10 {
      assert text[..0] == [];
    } else {
      DecimalOfText(n / 10);
      assert text[..|text| - 1] == DecimalText(n / 10);
    }
  }
}
