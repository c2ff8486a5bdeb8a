/** What the bytes are, said without the writer: heads, the order of keys as bytes, and known encodings. */
module CborLaws {
  import opened Wrappers
  import opened IpldModel
  import opened CborFormat
  import opened KeyOrder
  import Utf8

  // Heads

  /** How many bytes follow an initial byte whose low five bits are `info`, section 3 of RFC 8949. */
  function Following(info: nat): nat {
    match info
    case 24 => 1
    case 25 => 2
    case 26 => 4
    case 27 => 8
    case _ => 0
  }

  /** The argument a head holds: in its low five bits, or in the bytes that follow. */
  function Denoted(head: seq<Byte>): nat
    requires head != []
  {
    if |head| == 1 then head[0] as int % 32 else FromBigEndian(head[1..])
  }

  /** A head is its major type, its argument, and no longer than that argument needs. */
  lemma HeadIsShortest(major: int, arg: U64)
    requires 0 <= major < 7
    ensures var head := Head(major, arg);
            && head[0] / 32 == major && |head| == 1 + Following(head[0] as int % 32) && Denoted(head) == arg
            && (|head| == 1 <==> arg < 24) && (|head| <= 2 <==> arg < 0x100) && (|head| <= 3 <==> arg < 0x1_0000)
            && (|head| <= 5 <==> arg < 0x1_0000_0000)
  {
    Powers();
    if 24 <= arg < 0x100 { LongHead(major, arg, 24, 1); }
    if 0x100 <= arg < 0x1_0000 { LongHead(major, arg, 25, 2); }
    if 0x1_0000 <= arg < 0x1_0000_0000 { LongHead(major, arg, 26, 4); }
    if 0x1_0000_0000 <= arg { LongHead(major, arg, 27, 8); }
    hide BigEndian, FromBigEndian, Pow256;
  }

  lemma LongHead(major: int, arg: nat, info: nat, n: nat)
    requires 0 <= major < 7 && 24 <= info < 28 && arg < Pow256(n)
    ensures var head := [(major * 32 + info) as Byte] + BigEndian(arg, n);
            head[0] / 32 == major && head[0] % 32 == info && |head| == 1 + n && FromBigEndian(head[1..]) == arg
  {
    ReadBigEndian(arg, n);
    hide BigEndian, FromBigEndian, Pow256;
    var first: Byte := major * 32 + info;
    assert ([first] + BigEndian(arg, n))[1..] == BigEndian(arg, n);
  }

  // The order of keys is the order of their items

  lemma SmallerExtends(a: seq<Byte>, b: seq<Byte>, i: nat, c: seq<Byte>, d: seq<Byte>)
    requires SmallerAt(a, b, i)
    ensures SmallerAt(a + c, b + d, i)
  {
    assert (a + c)[..i] == a[..i] && (b + d)[..i] == b[..i];
  }

  lemma SmallerAfter(before: seq<Byte>, a: seq<Byte>, b: seq<Byte>, i: nat)
    requires SmallerAt(a, b, i)
    ensures SmallerAt(before + a, before + b, |before| + i)
  {
    assert (before + a)[..|before| + i] == before + a[..i] && (before + b)[..|before| + i] == before + b[..i];
  }

  lemma OneIsSmaller(a: seq<Byte>, b: seq<Byte>, i: nat, j: nat)
    requires SmallerAt(a, b, i)
    ensures !SmallerAt(b, a, j)
  {
    if i < j <= |a| && j <= |b| { assert a[..j][i] == a[i] && b[..j][i] == b[i]; }
    if j < i { assert a[..i][j] == a[j] && b[..i][j] == b[j]; }
  }

  lemma {:induction false} BigEndianOrder(x: nat, y: nat, n: nat) returns (i: nat)
    requires x < y < Pow256(n)
    ensures SmallerAt(BigEndian(x, n), BigEndian(y, n), i)
  {
    if x / 256 < y / 256 {
      i := BigEndianOrder(x / 256, y / 256, n - 1);
      SmallerExtends(BigEndian(x / 256, n - 1), BigEndian(y / 256, n - 1), i, [x % 256], [y % 256]);
    } else {
      assert x / 256 == y / 256 && x % 256 < y % 256;
      i := 0;
      assert SmallerAt([x % 256], [y % 256], 0);
      SmallerAfter(BigEndian(x / 256, n - 1), [x % 256], [y % 256], 0);
      i := n - 1;
    }
  }

  lemma HeadOrder(major: int, x: U64, y: U64) returns (i: nat)
    requires 0 <= major < 7 && x < y
    ensures SmallerAt(Head(major, x), Head(major, y), i)
  {
    Powers();
    hide BigEndian;
    var a, b := Head(major, x), Head(major, y);
    if |a| == |b| > 1 {
      var n := |a| - 1;
      i := BigEndianOrder(x, y, n);
      assert a == [a[0]] + BigEndian(x, n) && b == [a[0]] + BigEndian(y, n);
      SmallerAfter([a[0]], BigEndian(x, n), BigEndian(y, n), i);
      i := i + 1;
    } else {
      i := 0;
    }
  }

  ghost predicate ItemBefore(a: string, b: string)
    requires |Utf8.Encode(a)| <= ALLOCATION_LIMIT && |Utf8.Encode(b)| <= ALLOCATION_LIMIT
  {
    exists i: nat :: SmallerAt(TextItem(a), TextItem(b), i)
  }

  lemma LengthFirstIsBefore(a: string, b: string)
    requires |Utf8.Encode(a)| <= ALLOCATION_LIMIT && |Utf8.Encode(b)| <= ALLOCATION_LIMIT
    requires LengthFirst(a, b)
    ensures ItemBefore(a, b)
  {
    var x, y := Utf8.Encode(a), Utf8.Encode(b);
    LengthFirstExactly(a, b);
    hide Head, Utf8.Encode, SmallerAt, LengthFirst;
    if |x| < |y| {
      var i := HeadOrder(MAJOR_TEXT, |x|, |y|);
      SmallerExtends(Head(MAJOR_TEXT, |x|), Head(MAJOR_TEXT, |y|), i, x, y);
      assert SmallerAt(TextItem(a), TextItem(b), i);
    } else {
      var i: nat :| SmallerAt(x, y, i);
      SmallerAfter(Head(MAJOR_TEXT, |x|), x, y, i);
      assert SmallerAt(TextItem(a), TextItem(b), |Head(MAJOR_TEXT, |x|)| + i);
    }
  }

  /** Section 4.2.1 of RFC 8949: keys stand in the bytewise order of their own encodings. */
  lemma KeysInOrderOfItems(a: string, b: string)
    requires |Utf8.Encode(a)| <= ALLOCATION_LIMIT && |Utf8.Encode(b)| <= ALLOCATION_LIMIT
    ensures LengthFirst(a, b) <==> ItemBefore(a, b)
  {
    hide Utf8.Encode, TextItem, LengthFirst;
    LengthFirstIsStrictTotal();
    if LengthFirst(a, b) {
      LengthFirstIsBefore(a, b);
    } else if a != b {
      LengthFirstIsBefore(b, a);
      var i: nat :| SmallerAt(TextItem(b), TextItem(a), i);
      forall j: nat ensures !SmallerAt(TextItem(a), TextItem(b), j) {
        OneIsSmaller(TextItem(b), TextItem(a), i, j);
      }
    }
  }

  // Known encodings, from appendix A of RFC 8949

  lemma KnownIntegers()
    ensures WriteInteger(0) == Ok([0x00]) && WriteInteger(10) == Ok([0x0a]) && WriteInteger(23) == Ok([0x17])
    ensures WriteInteger(24) == Ok([0x18, 0x18]) && WriteInteger(100) == Ok([0x18, 0x64])
    ensures WriteInteger(1000) == Ok([0x19, 0x03, 0xe8])
    ensures WriteInteger(1000000) == Ok([0x1a, 0x00, 0x0f, 0x42, 0x40])
    ensures WriteInteger(18446744073709551615) == Ok([0x1b, 0xff, 0xff, 0xff, 0xff, 0xff, 0xff, 0xff, 0xff])
    ensures WriteInteger(-1) == Ok([0x20]) && WriteInteger(-10) == Ok([0x29]) && WriteInteger(-100) == Ok([0x38, 0x63])
    ensures WriteInteger(-1000) == Ok([0x39, 0x03, 0xe7])
    ensures WriteInteger(-18446744073709551616) == Ok([0x3b, 0xff, 0xff, 0xff, 0xff, 0xff, 0xff, 0xff, 0xff])
  {
    Powers();
    hide Head;
    assert 0 <= MAJOR_UINT < 7;
    SmallHeads();
    OneByte(0, 24);
    OneByte(0, 100);
    OneByte(1, 99);
    TwoBytes(0, 0x03, 0xe8);
    TwoBytes(1, 0x03, 0xe7);
    FourBytes(0, 0x00, 0x0f, 0x42, 0x40);
    AllOnes(0);
    AllOnes(1);
  }

  lemma SmallHeads()
    ensures Head(0, 0) == [0x00] && Head(0, 10) == [0x0a] && Head(0, 23) == [0x17]
    ensures Head(1, 0) == [0x20] && Head(1, 9) == [0x29]
  {
  }

  lemma OneByte(major: int, x: Byte)
    requires 0 <= major < 7 && x >= 24
    ensures Head(major, x) == [major * 32 + 24, x]
  {
    Powers();
    assert BigEndian(x, 1) == [x];
  }

  lemma TwoBytes(major: int, a: Byte, b: Byte)
    requires 0 <= major < 7 && a > 0
    ensures Head(major, 256 * a + b) == [major * 32 + 25, a, b]
  {
    Powers();
    WriteBigEndian([a, b]);
    assert [a, b][..1] == [a];
    assert FromBigEndian([a]) == a;
  }

  lemma FourBytes(major: int, a: Byte, b: Byte, c: Byte, d: Byte)
    requires 0 <= major < 7 && 256 * a + b > 0
    ensures Head(major, 256 * (256 * (256 * a + b) + c) + d) == [major * 32 + 26, a, b, c, d]
  {
    Powers();
    WriteBigEndian([a, b, c, d]);
    assert [a, b, c, d][..3] == [a, b, c] && [a, b, c][..2] == [a, b] && [a, b][..1] == [a];
    assert FromBigEndian([a]) == a;
    assert FromBigEndian([a, b, c]) == 256 * (256 * a + b) + c;
  }

  lemma AllOnes(major: int)
    requires 0 <= major < 7
    ensures Head(major, 0xffff_ffff_ffff_ffff)
         == [major * 32 + 27, 0xff, 0xff, 0xff, 0xff, 0xff, 0xff, 0xff, 0xff]
  {
    Powers();
    Ones(8);
    assert seq(8, i => 0xff as Byte) == [0xff, 0xff, 0xff, 0xff, 0xff, 0xff, 0xff, 0xff];
  }

  lemma {:induction false} Ones(n: nat)
    ensures BigEndian(Pow256(n) - 1, n) == seq(n, i => 0xff as Byte)
  {
    if n > 0 {
      Ones(n - 1);
      assert (Pow256(n) - 1) / 256 == Pow256(n - 1) - 1 && (Pow256(n) - 1) % 256 == 255;
    }
  }

  /** Short byte strings and texts, the simple values, and any other float than -0.0. */
  lemma KnownLeaves(lib: CidLibrary, bytes: seq<Byte>, text: string, bits: U64)
    requires lib.Lawful() && |bytes| < 24 && |Utf8.Encode(text)| < 24 && Finite(bits) && bits != NEGATIVE_ZERO
    ensures WriteItem(lib, Bytes(bytes), 0) == Ok([0x40 + |bytes|] + bytes)
    ensures WriteItem(lib, String(text), 0) == Ok([0x60 + |Utf8.Encode(text)|] + Utf8.Encode(text))
    ensures WriteItem(lib, Bool(false), 0) == Ok([0xf4]) && WriteItem(lib, Bool(true), 0) == Ok([0xf5])
    ensures WriteItem(lib, Null, 0) == Ok([0xf6])
    ensures WriteItem(lib, Float(bits), 0).Ok?
    ensures var item := WriteItem(lib, Float(bits), 0).value;
            |item| == 9 && item[0] == 0xfb && FromBigEndian(item[1..]) == bits
  {
    ShortItems(bytes, text);
    FloatIsItsBits(bits);
    hide BytesItem, TextItem, FloatItem, WriteItems, WriteEntries, Utf8.Encode;
  }

  lemma FloatIsItsBits(bits: U64)
    ensures |FloatItem(bits)| == 9 && FloatItem(bits)[0] == 0xfb && FromBigEndian(FloatItem(bits)[1..]) == bits
  {
    Powers();
    ReadBigEndian(bits, 8);
    hide BigEndian, FromBigEndian;
    assert FloatItem(bits)[1..] == BigEndian(bits, 8);
  }

  lemma ShortItems(bytes: seq<Byte>, text: string)
    requires |bytes| < 24 && |Utf8.Encode(text)| < 24
    ensures BytesItem(bytes) == [0x40 + |bytes|] + bytes
    ensures TextItem(text) == [0x60 + |Utf8.Encode(text)|] + Utf8.Encode(text)
  {
  }

  /** A link is tag 42 around the CID after a zero byte. */
  lemma KnownLink(raw: seq<Byte>)
    requires |raw| < 23
    ensures LinkItem(raw) == [0xd8, 0x2a, 0x41 + |raw|, 0x00] + raw
  {
    OneByte(6, 42);
  }

  /** The major type of each kind of value. */
  lemma MajorTypes(lib: CidLibrary, v: Ipld, depth: nat)
    requires lib.Lawful() && Allocated(v) && depth <= MAX_DEPTH + 1 && WriteItem(lib, v, depth).Ok?
    ensures WriteItem(lib, v, depth).value[0] / 32 ==
            if v.Integer? then (if v.i >= 0 then 0 else 1)
            else if v.Bytes? then 2 else if v.String? then 3 else if v.List? then 4 else if v.Map? then 5
            else if v.Link? then 6 else 7
  {
    Majors();
    hide Head, WriteItems, WriteEntries, Utf8.Encode;
  }

  lemma Majors()
    ensures forall major: int, arg: U64 :: 0 <= major < 7 ==> Head(major, arg)[0] / 32 == major
  {
    forall major: int, arg: U64 | 0 <= major < 7 ensures Head(major, arg)[0] / 32 == major {
      HeadIsShortest(major, arg);
    }
  }
}
