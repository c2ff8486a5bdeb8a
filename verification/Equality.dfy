/** Deep equality of policy values, in which 1, 1.0 and 1.00 are the same number. */
module Equality {
  import opened Wrappers
  import opened IpldModel
  import N = Numbers

  /** The number inside an IPLD value, if it is one. */
  function NumberOf(v: Ipld): Option<N.Number> {
    match v
    case Integer(i) => Some(N.Int(i))
    case Float(bits) => Some(N.Float(bits))
    case _ => None
  }

  function OfNumber(n: N.Number): Ipld {
    match n
    case Int(i) => Integer(i)
    case Float(bits) => Float(bits)
  }

  predicate Equal(a: Ipld, b: Ipld)
    decreases a
  {
    if NumberOf(a).Some? && NumberOf(b).Some? then
      N.PartialCompare(NumberOf(a).value, NumberOf(b).value) == Some(N.Same)
    else match (a, b)
      case (List(x), List(y)) => |x| == |y| && forall i :: 0 <= i < |x| ==> Equal(x[i], y[i])
      case (Map(x), Map(y)) => |x| == |y| && forall k :: k in x ==> k in y && Equal(x[k], y[k])
      case _ => a == b
  }

  /** What decoding a token can give: every number within the wire's range. */
  ghost predicate OnWire(v: Ipld) {
    match v
    case Integer(i) => -USIZE_END <= i < USIZE_END
    case Float(bits) => Finite(bits)
    case List(items) => forall i :: 0 <= i < |items| ==> OnWire(items[i])
    case Map(m) => forall k :: k in m ==> OnWire(m[k])
    case _ => true
  }

  lemma NumbersByValue(a: Ipld, b: Ipld)
    requires OnWire(a) && OnWire(b) && NumberOf(a).Some? && NumberOf(b).Some?
    ensures Equal(a, b) <==> N.Value(NumberOf(a).value) == N.Value(NumberOf(b).value)
  {
    hide N.Value, N.PartialCompare;
    N.PartialCompareExact(NumberOf(a).value, NumberOf(b).value);
  }

  lemma SameKeys(x: map<string, Ipld>, y: map<string, Ipld>)
    requires |x| == |y| && forall k :: k in x ==> k in y
    ensures x.Keys == y.Keys
  {
    assert x.Keys <= y.Keys;
    SubsetOfSameSize(x.Keys, y.Keys);
  }

  lemma SubsetOfSameSize(s: set<string>, t: set<string>)
    requires s <= t && |s| == |t|
    ensures s == t
  {
    assert t == s + (t - s);
    assert |t| == |s| + |t - s|;
  }

  lemma {:induction false} EqualReflexive(a: Ipld)
    requires OnWire(a)
    ensures Equal(a, a)
  {
    if NumberOf(a).Some? {
      NumbersByValue(a, a);
    } else {
      match a
      case List(x) => forall i | 0 <= i < |x| ensures Equal(x[i], x[i]) { EqualReflexive(x[i]); }
      case Map(x) => forall k | k in x ensures Equal(x[k], x[k]) { EqualReflexive(x[k]); }
      case _ =>
    }
  }

  lemma {:induction false} EqualSymmetric(a: Ipld, b: Ipld)
    requires OnWire(a) && OnWire(b) && Equal(a, b)
    ensures Equal(b, a)
    decreases a
  {
    if NumberOf(a).Some? && NumberOf(b).Some? {
      NumbersByValue(a, b);
      NumbersByValue(b, a);
    } else {
      match (a, b)
      case (List(x), List(y)) =>
        forall i | 0 <= i < |y| ensures Equal(y[i], x[i]) { EqualSymmetric(x[i], y[i]); }
      case (Map(x), Map(y)) =>
        SameKeys(x, y);
        forall k | k in y ensures k in x && Equal(y[k], x[k]) { EqualSymmetric(x[k], y[k]); }
      case _ =>
    }
  }

  lemma {:induction false} EqualTransitive(a: Ipld, b: Ipld, c: Ipld)
    requires OnWire(a) && OnWire(b) && OnWire(c) && Equal(a, b) && Equal(b, c)
    ensures Equal(a, c)
    decreases a
  {
    if NumberOf(a).Some? && NumberOf(b).Some? && NumberOf(c).Some? {
      NumbersByValue(a, b);
      NumbersByValue(b, c);
      NumbersByValue(a, c);
    } else {
      match (a, b, c)
      case (List(x), List(y), List(z)) =>
        forall i | 0 <= i < |x| ensures Equal(x[i], z[i]) { EqualTransitive(x[i], y[i], z[i]); }
      case (Map(x), Map(y), Map(z)) =>
        forall k | k in x ensures k in z && Equal(x[k], z[k]) { EqualTransitive(x[k], y[k], z[k]); }
      case _ =>
    }
  }

  // What equality comes to

  /** A value with every number replaced by what it is worth, in units of 2^-1074. */
  datatype Worth =
    | Amount(units: int)
    | Leaf(v: Ipld)
    | Items(items: seq<Worth>)
    | Entries(entries: map<string, Worth>)

  ghost function WorthOf(v: Ipld): Worth {
    match v
    case Integer(i) => Amount(N.Value(N.Int(i)))
    case Float(bits) => Amount(N.Value(N.Float(bits)))
    case List(items) => Items(seq(|items|, i requires 0 <= i < |items| => WorthOf(items[i])))
    case Map(m) => Entries(map k | k in m :: WorthOf(m[k]))
    case _ => Leaf(v)
  }

  /** Wire values are deeply equal exactly when they are worth the same. */
  lemma {:induction false} EqualExactly(a: Ipld, b: Ipld)
    requires OnWire(a) && OnWire(b)
    ensures Equal(a, b) <==> WorthOf(a) == WorthOf(b)
    decreases a
  {
    hide N.Value, N.PartialCompare;
    if NumberOf(a).Some? && NumberOf(b).Some? {
      NumbersByValue(a, b);
    } else if a.List? && b.List? {
      var x, y := a.items, b.items;
      if |x| == |y| {
        forall i | 0 <= i < |x| ensures Equal(x[i], y[i]) <==> WorthOf(a).items[i] == WorthOf(b).items[i] {
          EqualExactly(x[i], y[i]);
        }
      }
    } else if a.Map? && b.Map? {
      MapsWorth(a.entries, b.entries);
      MapsEqual(a.entries, b.entries);
      forall k | k in a.entries && k in b.entries
        ensures Equal(a.entries[k], b.entries[k]) <==> WorthOf(a.entries[k]) == WorthOf(b.entries[k])
      {
        EqualExactly(a.entries[k], b.entries[k]);
      }
    }
  }

  lemma MapsWorth(x: map<string, Ipld>, y: map<string, Ipld>)
    ensures WorthOf(Map(x)) == WorthOf(Map(y)) <==>
            x.Keys == y.Keys && forall k :: k in x && k in y ==> WorthOf(x[k]) == WorthOf(y[k])
  {
    EntriesOf(x);
    EntriesOf(y);
    hide WorthOf;
    var v, w := WorthOf(Map(x)), WorthOf(Map(y));
    if x.Keys == y.Keys && forall k :: k in x && k in y ==> WorthOf(x[k]) == WorthOf(y[k]) {
      assert v.entries == w.entries;
    }
    if v == w { assert x.Keys == v.entries.Keys == y.Keys; }
  }

  lemma EntriesOf(x: map<string, Ipld>)
    ensures var v := WorthOf(Map(x));
            v.Entries? && v.entries.Keys == x.Keys && forall k :: k in x ==> v.entries[k] == WorthOf(x[k])
  {
  }

  lemma MapsEqual(x: map<string, Ipld>, y: map<string, Ipld>)
    ensures Equal(Map(x), Map(y)) <==>
            x.Keys == y.Keys && forall k :: k in x && k in y ==> Equal(x[k], y[k])
  {
    assert |x| == |x.Keys| && |y| == |y.Keys|;
    if |x| == |y| && forall k :: k in x ==> k in y { SameKeys(x, y); }
  }
}
