/** The two orders on map keys, and the listing of a key set in such an order. */
module KeyOrder {
  import opened Wrappers
  import Utf8

  /** `<[u8]>::cmp` is `Less`. */
  predicate BytesLess(a: seq<Byte>, b: seq<Byte>) {
    if a == [] then b != []
    else b != [] && (a[0] < b[0] || (a[0] == b[0] && BytesLess(a[1..], b[1..])))
  }

  /** The order of `str`, and so of a `BTreeMap<String, _>`. */
  predicate Bytewise(a: string, b: string) {
    BytesLess(Utf8.Encode(a), Utf8.Encode(b))
  }

  /** DAG-CBOR key order, section 4.2.3 of RFC 8949: shorter first, then bytewise. */
  predicate LengthFirst(a: string, b: string) {
    var x, y := Utf8.Encode(a), Utf8.Encode(b);
    |x| < |y| || (|x| == |y| && BytesLess(x, y))
  }

  /** The two agree before `i`, where the first has the smaller byte. */
  ghost predicate SmallerAt(a: seq<Byte>, b: seq<Byte>, i: nat) {
    i < |a| && i < |b| && a[..i] == b[..i] && a[i] < b[i]
  }

  /** The first byte that differs decides, and a proper prefix comes first. */
  lemma {:induction false} BytesLessExactly(a: seq<Byte>, b: seq<Byte>)
    ensures BytesLess(a, b) <==> a < b || exists i: nat :: SmallerAt(a, b, i)
  {
    if a == [] {
    } else if b != [] && a[0] == b[0] {
      var x, y := a[1..], b[1..];
      BytesLessExactly(x, y);
      assert a == [a[0]] + x && b == [b[0]] + y;
      if i: nat :| SmallerAt(x, y, i) {
        assert a[..i + 1] == [a[0]] + x[..i] && b[..i + 1] == [b[0]] + y[..i];
        assert SmallerAt(a, b, i + 1);
      }
      if i: nat :| SmallerAt(a, b, i) {
        assert x[..i - 1] == a[..i][1..] && y[..i - 1] == b[..i][1..];
        assert SmallerAt(x, y, i - 1);
      }
    } else if b != [] {
      if a[0] < b[0] { assert SmallerAt(a, b, 0); }
      if i: nat :| SmallerAt(a, b, i) {
        if i > 0 { assert a[..i][0] == b[..i][0]; }
      }
    }
  }

  /** The order of `str`, byte by byte. */
  lemma BytewiseExactly(a: string, b: string)
    ensures var x, y := Utf8.Encode(a), Utf8.Encode(b);
            Bytewise(a, b) <==> x < y || exists i: nat :: SmallerAt(x, y, i)
  {
    BytesLessExactly(Utf8.Encode(a), Utf8.Encode(b));
  }

  /** The canonical order: the shorter key, or of one length the one whose first differing byte is smaller. */
  lemma LengthFirstExactly(a: string, b: string)
    ensures var x, y := Utf8.Encode(a), Utf8.Encode(b);
            LengthFirst(a, b) <==> |x| < |y| || (|x| == |y| && exists i: nat :: SmallerAt(x, y, i))
  {
    BytesLessExactly(Utf8.Encode(a), Utf8.Encode(b));
  }

  /** UTF-8 keeps the order of scalars, so strings are ordered by the first scalar that differs. */
  lemma ScalarsInOrder(c: char, d: char) returns (i: nat)
    requires c < d
    ensures SmallerAt(Utf8.EncodeChar(c), Utf8.EncodeChar(d), i)
  {
    var x, y := Utf8.EncodeChar(c), Utf8.EncodeChar(d);
    Utf8.LeadTellsLength(c);
    Utf8.LeadTellsLength(d);
    var v, w := c as int, d as int;
    DigitsInOrder(v, w);
    DigitsInOrder(v / 64, w / 64);
    DigitsInOrder(v / 64 / 64, w / 64 / 64);
    i := if x[0] != y[0] then 0 else if x[1] != y[1] then 1 else if x[2] != y[2] then 2 else 3;
  }

  lemma DigitsInOrder(v: nat, w: nat)
    ensures v < w <==> v / 64 < w / 64 || (v / 64 == w / 64 && v % 64 < w % 64)
  {
  }

  /** So the order of `str` is the order of scalars: the first that differs decides, and a prefix comes first. */
  lemma BytewiseByScalar(a: string, b: string)
    ensures Bytewise(a, b) <==> a < b || exists i: nat :: SmallerScalarAt(a, b, i)
  {
    hide Bytewise, BytesLess;
    if i: nat :| SmallerScalarAt(a, b, i) {
      SmallerScalarFirst(a, b, i);
    } else if i: nat :| SmallerScalarAt(b, a, i) {
      SmallerScalarFirst(b, a, i);
      NotBoth(a, b);
    } else if a == b {
      NotBoth(a, b);
    } else {
      CommonPrefix(a, b);
      if a < b { PrefixFirst(a, b); } else { PrefixFirst(b, a); }
      NotBoth(a, b);
    }
  }

  ghost predicate SmallerScalarAt(a: string, b: string, i: nat) {
    i < |a| && i < |b| && a[..i] == b[..i] && a[i] < b[i]
  }

  lemma NotBoth(a: string, b: string)
    ensures !(Bytewise(a, b) && Bytewise(b, a))
  {
    BytewiseIsStrictTotal();
  }

  /** Strings of which neither has the smaller scalar first are one a prefix of the other. */
  lemma {:induction false} CommonPrefix(a: string, b: string)
    requires forall i: nat :: !SmallerScalarAt(a, b, i) && !SmallerScalarAt(b, a, i)
    ensures a <= b || b <= a
  {
    var n := 0;
    while n < |a| && n < |b|
      invariant n <= |a| && n <= |b| && a[..n] == b[..n]
    {
      assert !SmallerScalarAt(a, b, n) && !SmallerScalarAt(b, a, n);
      n := n + 1;
    }
  }

  lemma PrefixFirst(a: string, b: string)
    requires a < b
    ensures Bytewise(a, b)
  {
    var rest := b[|a|..];
    assert b == a + rest;
    Utf8.EncodeConcat(a, rest);
    assert Utf8.Encode(rest) != [];
    BytesLessExactly(Utf8.Encode(a), Utf8.Encode(b));
  }

  lemma SmallerScalarFirst(a: string, b: string, i: nat)
    requires SmallerScalarAt(a, b, i)
    ensures Bytewise(a, b)
  {
    var x, y := Utf8.EncodeChar(a[i]), Utf8.EncodeChar(b[i]);
    var j := ScalarsInOrder(a[i], b[i]);
    EncodeAround(a, i);
    EncodeAround(b, i);
    hide Utf8.EncodeChar, Utf8.Encode;
    var before := Utf8.Encode(a[..i]);
    SmallerStands(before, x, y, Utf8.Encode(a[i + 1..]), Utf8.Encode(b[i + 1..]), j);
    BytesLessExactly(Utf8.Encode(a), Utf8.Encode(b));
  }

  lemma EncodeAround(a: string, i: nat)
    requires i < |a|
    ensures Utf8.Encode(a) == Utf8.Encode(a[..i]) + (Utf8.EncodeChar(a[i]) + Utf8.Encode(a[i + 1..]))
  {
    assert a == a[..i] + a[i..];
    Utf8.EncodeConcat(a[..i], a[i..]);
    assert a[i..][1..] == a[i + 1..];
  }

  lemma SmallerStands(
      before: seq<Byte>, x: seq<Byte>, y: seq<Byte>, r: seq<Byte>, s: seq<Byte>, j: nat)
    requires SmallerAt(x, y, j)
    ensures SmallerAt(before + (x + r), before + (y + s), |before| + j)
  {
    var a, b := before + (x + r), before + (y + s);
    assert a[..|before| + j] == before + x[..j] && b[..|before| + j] == before + y[..j];
  }

  ghost predicate StrictTotal(less: (string, string) -> bool) {
    && (forall a :: !less(a, a))
    && (forall a, b :: a == b || less(a, b) || less(b, a))
    && (forall a, b, c :: less(a, b) && less(b, c) ==> less(a, c))
  }

  lemma {:induction a} BytesLessTotal(a: seq<Byte>, b: seq<Byte>)
    ensures a == b || BytesLess(a, b) || BytesLess(b, a)
    ensures !BytesLess(a, a)
  {
    if a != [] {
      if b != [] && a[0] == b[0] {
        BytesLessTotal(a[1..], b[1..]);
        assert a == [a[0]] + a[1..] && b == [b[0]] + b[1..];
      } else {
        BytesLessTotal(a[1..], a[1..]);
      }
    }
  }

  lemma {:induction false} BytesLessTransitive(a: seq<Byte>, b: seq<Byte>, c: seq<Byte>)
    requires BytesLess(a, b) && BytesLess(b, c)
    ensures BytesLess(a, c)
  {
    if a != [] && a[0] == b[0] == c[0] {
      BytesLessTransitive(a[1..], b[1..], c[1..]);
    }
  }

  lemma BytewiseIsStrictTotal()
    ensures StrictTotal(Bytewise)
  {
    forall a, b ensures a == b || Bytewise(a, b) || Bytewise(b, a) {
      BytesLessTotal(Utf8.Encode(a), Utf8.Encode(b));
      if Utf8.Encode(a) == Utf8.Encode(b) { Utf8.EncodeInjective(a, b); }
    }
    forall a ensures !Bytewise(a, a) {
      BytesLessTotal(Utf8.Encode(a), Utf8.Encode(a));
    }
    forall a, b, c | Bytewise(a, b) && Bytewise(b, c) ensures Bytewise(a, c) {
      BytesLessTransitive(Utf8.Encode(a), Utf8.Encode(b), Utf8.Encode(c));
    }
  }

  lemma LengthFirstIsStrictTotal()
    ensures StrictTotal(LengthFirst)
  {
    forall a, b ensures a == b || LengthFirst(a, b) || LengthFirst(b, a) {
      BytesLessTotal(Utf8.Encode(a), Utf8.Encode(b));
      if Utf8.Encode(a) == Utf8.Encode(b) { Utf8.EncodeInjective(a, b); }
    }
    forall a ensures !LengthFirst(a, a) {
      BytesLessTotal(Utf8.Encode(a), Utf8.Encode(a));
    }
    forall a, b, c | LengthFirst(a, b) && LengthFirst(b, c) ensures LengthFirst(a, c) {
      var x, y, z := Utf8.Encode(a), Utf8.Encode(b), Utf8.Encode(c);
      if |x| == |y| == |z| { BytesLessTransitive(x, y, z); }
    }
  }

  /** The two orders are not the same: a longer key may come before a shorter one bytewise. */
  lemma OrdersDiffer()
    ensures Bytewise("aa", "b") && LengthFirst("b", "aa") && !LengthFirst("aa", "b")
  {
    assert Utf8.Encode("b") == [0x62] by { assert "b"[1..] == ""; }
    assert Utf8.Encode("aa") == [0x61, 0x61] by { assert "aa"[1..] == "a" && "a"[1..] == ""; }
  }

  ghost predicate Ascending(keys: seq<string>, less: (string, string) -> bool) {
    forall i, j :: 0 <= i < j < |keys| ==> less(keys[i], keys[j])
  }

  ghost predicate Least(k: string, keys: set<string>, less: (string, string) -> bool) {
    k in keys && forall x :: x in keys ==> x == k || less(k, x)
  }

  lemma {:induction false} LeastExists(keys: set<string>, less: (string, string) -> bool)
    requires keys != {} && StrictTotal(less)
    ensures exists k :: Least(k, keys, less)
  {
    var k :| k in keys;
    var rest := keys - {k};
    if rest == {} {
      assert forall x :: x in keys ==> x == k || x in rest;
      assert Least(k, keys, less);
    } else {
      LeastExists(rest, less);
      var other :| Least(other, rest, less);
      var least := if less(other, k) then other else k;
      assert Least(least, keys, less);
    }
  }

  /** The keys in ascending order: what sorting any listing of them gives. */
  function Listing(keys: set<string>, less: (string, string) -> bool): (listing: seq<string>)
    requires StrictTotal(less)
    ensures Ascending(listing, less)
    ensures forall k :: k in listing <==> k in keys
    decreases |keys|
  {
    if keys == {} then []
    else
      LeastExists(keys, less);
      ghost var k :| Least(k, keys, less);
      assert k in keys;
      var least :| least in keys && forall x | x in keys :: x == least || less(least, x);
      [least] + Listing(keys - {least}, less)
  }

  /** There is only one ascending listing of a key set. */
  lemma {:induction false} ListingUnique(a: seq<string>, b: seq<string>, less: (string, string) -> bool)
    requires StrictTotal(less) && Ascending(a, less) && Ascending(b, less)
    requires forall k :: k in a <==> k in b
    ensures a == b
  {
    assert a == [] <==> b == [] by {
      assert a != [] ==> a[0] in b;
      assert b != [] ==> b[0] in a;
    }
    if a != [] {
      assert a[0] in b;
      assert b[0] in a;
      assert a[0] == b[0];
      var x, y := a[1..], b[1..];
      forall k ensures k in x <==> k in y {
        assert k in a <==> k == a[0] || k in x;
        assert k in b <==> k == b[0] || k in y;
        assert a[0] !in x && b[0] !in y;
      }
      ListingUnique(x, y, less);
      assert a == [a[0]] + x && b == [b[0]] + y;
    }
  }

  /** An ascending listing is as long as its key set. */
  lemma {:induction false} KeyCount(keys: seq<string>, all: set<string>, less: (string, string) -> bool)
    requires StrictTotal(less) && Ascending(keys, less) && forall k :: k in keys <==> k in all
    ensures |keys| == |all|
  {
    if keys == [] {
      assert all == {};
    } else {
      assert forall k :: k in keys <==> k == keys[0] || k in keys[1..];
      assert keys[0] !in keys[1..];
      KeyCount(keys[1..], all - {keys[0]}, less);
    }
  }
}
