/** Policies cannot tell apart arguments that are deeply equal. */
module PolicyProofs {
  import opened Wrappers
  import opened IpldModel
  import opened Policy
  import Equality
  import C = CborProofs
  import F = CborFormat
  import KeyOrder
  import N = Numbers
  import S = Selector
  import SelectorParser

  /** What decoding a token can give inside a statement. */
  ghost predicate OnWire(s: Statement) {
    match s
    case Equal(_, value) => Equality.OnWire(value)
    case NotEqual(_, value) => Equality.OnWire(value)
    case Less(_, n) => N.OnWire(n)
    case LessOrEqual(_, n) => N.OnWire(n)
    case Greater(_, n) => N.OnWire(n)
    case GreaterOrEqual(_, n) => N.OnWire(n)
    case Like(_, _) => true
    case And(list) => forall i :: 0 <= i < |list| ==> OnWire(list[i])
    case Or(list) => forall i :: 0 <= i < |list| ==> OnWire(list[i])
    case Not(inner) => OnWire(inner)
    case All(_, inner) => OnWire(inner)
    case AnyOf(_, inner) => OnWire(inner)
  }

  /** Two wire values that are deeply equal. */
  ghost predicate Alike(v: Ipld, w: Ipld) {
    Equality.OnWire(v) && Equality.OnWire(w) && Equality.Equal(v, w)
  }

  /** Alike, or missing alike. */
  ghost predicate BothAlike(v: Option<Ipld>, w: Option<Ipld>) {
    (v.None? <==> w.None?) && (v.Some? ==> Alike(v.value, w.value))
  }

  lemma AlikeToItself(v: Ipld)
    requires Equality.OnWire(v)
    ensures Alike(v, v)
  {
    Equality.EqualReflexive(v);
  }

  lemma ListsAlike(x: seq<Ipld>, y: seq<Ipld>)
    ensures Alike(List(x), List(y)) <==> |x| == |y| && forall i :: 0 <= i < |x| ==> Alike(x[i], y[i])
  {
  }

  lemma MapsAlike(m: map<string, Ipld>, n: map<string, Ipld>)
    requires Alike(Map(m), Map(n))
    ensures m.Keys == n.Keys && forall k :: k in m ==> Alike(m[k], n[k])
  {
    Equality.SameKeys(m, n);
  }

  lemma ValuesAlike(m: map<string, Ipld>, n: map<string, Ipld>)
    requires Alike(Map(m), Map(n))
    ensures Alike(List(ValuesOf(m)), List(ValuesOf(n)))
  {
    hide Equality.Equal, Equality.OnWire, KeyOrder.Listing, Alike;
    MapsAlike(m, n);
    ListsAlike(ValuesOf(m), ValuesOf(n));
    KeyOrder.BytewiseIsStrictTotal();
    var keys := KeyOrder.Listing(m.Keys, KeyOrder.Bytewise);
    forall i | 0 <= i < |keys| ensures Alike(ValuesOf(m)[i], ValuesOf(n)[i]) {
      assert keys[i] in keys;
    }
  }

  /** Alike values have the same shape. */
  lemma ShapesAlike(v: Ipld, w: Ipld)
    requires Alike(v, w)
    ensures v.List? <==> w.List?
    ensures v.Map? <==> w.Map?
    ensures v.Bytes? || v.String? || w.Bytes? || w.String? ==> v == w
    ensures Equality.NumberOf(v).Some? <==> Equality.NumberOf(w).Some?
  {
  }

  lemma StepAlike(v: Ipld, w: Ipld, kind: S.Kind)
    requires Alike(v, w)
    ensures BothAlike(Step(v, kind), Step(w, kind))
  {
    hide Equality.Equal, Equality.OnWire, ValuesOf, Alike;
    ShapesAlike(v, w);
    match (kind, v)
    case (Key(name), Map(m)) =>
      MapsAlike(m, w.entries);
      NullAlike();
    case (Values, Map(m)) => ValuesAlike(m, w.entries);
    case (Index(i), List(items)) => ListsAlike(items, w.items);
    case (Index(i), Bytes(bytes)) => BytesAlike(v, kind);
    case (Slice(from, to), List(items)) => SlicesAlike(items, w.items, from, to);
    case (Slice(from, to), Bytes(bytes)) => BytesAlike(v, kind);
    case _ =>
  }

  lemma NullAlike()
    ensures Alike(Null, Null)
  {
  }

  lemma BytesAlike(v: Ipld, kind: S.Kind)
    requires v.Bytes?
    ensures BothAlike(Step(v, kind), Step(v, kind))
  {
    var next := Step(v, kind);
    if next.Some? { AlikeToItself(next.value); }
  }

  lemma SlicesAlike(x: seq<Ipld>, y: seq<Ipld>, from: Option<I64>, to: Option<I64>)
    requires Alike(List(x), List(y))
    ensures |x| == |y|
    ensures var (start, end) := Bounds(|x|, from, to); Alike(List(x[start..end]), List(y[start..end]))
  {
    hide Equality.Equal, Equality.OnWire, Alike, Bounds;
    ListsAlike(x, y);
    var (start, end) := Bounds(|x|, from, to);
    ListsAlike(x[start..end], y[start..end]);
  }

  lemma {:induction false} ResolveAlike(segments: seq<S.Segment>, v: Ipld, w: Ipld)
    requires Alike(v, w)
    ensures BothAlike(Resolve(segments, v), Resolve(segments, w))
    decreases |segments|
  {
    hide Alike, Step;
    if segments != [] {
      StepAlike(v, w, segments[0].kind);
      NullAlike();
      if Step(v, segments[0].kind).Some? {
        ResolveAlike(segments[1..], Step(v, segments[0].kind).value, Step(w, segments[0].kind).value);
      }
    }
  }

  lemma ComparedAlike(sel: SelectorValue, v: Ipld, w: Ipld, n: N.Number, accept: set<N.Ordering>)
    requires Alike(v, w) && N.OnWire(n)
    ensures Compared(sel, v, n, accept) == Compared(sel, w, n, accept)
  {
    hide Alike, Resolve, N.PartialCompare, N.Value, N.OnWire;
    ResolveAlike(sel.segments, v, w);
    var (a, b) := (Resolve(sel.segments, v), Resolve(sel.segments, w));
    if a.Some? {
      ShapesAlike(a.value, b.value);
      if Equality.NumberOf(a.value).Some? { NumbersAlike(a.value, b.value, n); }
    }
  }

  /** What a selector finds is compared by its real value. */
  lemma ComparedByValue(sel: SelectorValue, args: Ipld, n: N.Number, accept: set<N.Ordering>)
    requires Equality.OnWire(args) && N.OnWire(n)
    ensures var found := Resolve(sel.segments, args);
            Compared(sel, args, n, accept) <==>
              && found.Some? && Equality.NumberOf(found.value).Some?
              && N.Compare(N.Value(Equality.NumberOf(found.value).value), N.Value(n)) in accept
  {
    hide Resolve, N.PartialCompare, N.Value;
    AlikeToItself(args);
    ResolveAlike(sel.segments, args, args);
    var found := Resolve(sel.segments, args);
    if found.Some? && Equality.NumberOf(found.value).Some? {
      N.PartialCompareExact(Equality.NumberOf(found.value).value, n);
    }
  }

  lemma NumbersAlike(v: Ipld, w: Ipld, n: N.Number)
    requires Alike(v, w) && N.OnWire(n) && Equality.NumberOf(v).Some? && Equality.NumberOf(w).Some?
    ensures N.PartialCompare(Equality.NumberOf(v).value, n) == N.PartialCompare(Equality.NumberOf(w).value, n)
  {
    hide N.PartialCompare, N.Value;
    Equality.NumbersByValue(v, w);
    N.PartialCompareExact(Equality.NumberOf(v).value, n);
    N.PartialCompareExact(Equality.NumberOf(w).value, n);
  }

  lemma SelectedAlike(sel: SelectorValue, v: Ipld, w: Ipld, value: Ipld)
    requires Alike(v, w) && Equality.OnWire(value)
    ensures Selected(sel, v, value) == Selected(sel, w, value)
  {
    hide Resolve, Equality.Equal, Equality.OnWire, Alike;
    ResolveAlike(sel.segments, v, w);
    var (a, b) := (Resolve(sel.segments, v), Resolve(sel.segments, w));
    if a.Some? { EqualToBoth(a.value, b.value, value); }
  }

  lemma EqualToBoth(v: Ipld, w: Ipld, value: Ipld)
    requires Alike(v, w) && Equality.OnWire(value)
    ensures Equality.Equal(v, value) <==> Equality.Equal(w, value)
  {
    hide Equality.Equal, Equality.OnWire;
    Equality.EqualSymmetric(v, w);
    if Equality.Equal(v, value) { Equality.EqualTransitive(w, v, value); }
    if Equality.Equal(w, value) { Equality.EqualTransitive(v, w, value); }
  }

  lemma ElementsAlike(sel: SelectorValue, v: Ipld, w: Ipld)
    requires Alike(v, w)
    ensures var (a, b) := (Elements(sel, v), Elements(sel, w));
            && (a.None? <==> b.None?)
            && (a.Some? ==> |a.value| == |b.value|)
            && (a.Some? ==> forall i :: 0 <= i < |a.value| ==> Alike(a.value[i], b.value[i]))
  {
    hide Alike, Resolve, ValuesOf;
    ResolveAlike(sel.segments, v, w);
    var (a, b) := (Resolve(sel.segments, v), Resolve(sel.segments, w));
    if a.Some? {
      ShapesAlike(a.value, b.value);
      if a.value.Map? {
        ValuesAlike(a.value.entries, b.value.entries);
        ListsAlike(ValuesOf(a.value.entries), ValuesOf(b.value.entries));
      } else if a.value.List? {
        ListsAlike(a.value.items, b.value.items);
      }
    }
  }

  /** A statement holds of both or neither of two wire values that are deeply equal. */
  lemma {:induction false} HoldsAlike(s: Statement, v: Ipld, w: Ipld)
    requires Alike(v, w) && OnWire(s)
    ensures Holds(s, v) <==> Holds(s, w)
    decreases s, 0
  {
    hide Alike, Resolve, Compared, Selected, Elements;
    match s
    case Equal(sel, value) => SelectedAlike(sel, v, w, value);
    case NotEqual(sel, value) => SelectedAlike(sel, v, w, value);
    case Less(sel, n) => ComparedAlike(sel, v, w, n, {N.Less});
    case LessOrEqual(sel, n) => ComparedAlike(sel, v, w, n, {N.Less, N.Same});
    case Greater(sel, n) => ComparedAlike(sel, v, w, n, {N.Greater});
    case GreaterOrEqual(sel, n) => ComparedAlike(sel, v, w, n, {N.Greater, N.Same});
    case Like(sel, _) =>
      ResolveAlike(sel.segments, v, w);
      if Resolve(sel.segments, v).Some? {
        ShapesAlike(Resolve(sel.segments, v).value, Resolve(sel.segments, w).value);
      }
    case And(list) => forall i | 0 <= i < |list| ensures Holds(list[i], v) <==> Holds(list[i], w) {
        HoldsAlike(list[i], v, w);
      }
    case Or(list) => forall i | 0 <= i < |list| ensures Holds(list[i], v) <==> Holds(list[i], w) {
        HoldsAlike(list[i], v, w);
      }
    case Not(inner) => HoldsAlike(inner, v, w);
    case All(sel, inner) => QuantifiedAlike(sel, inner, v, w);
    case AnyOf(sel, inner) => QuantifiedAlike(sel, inner, v, w);
  }

  lemma {:induction false} QuantifiedAlike(sel: SelectorValue, inner: Statement, v: Ipld, w: Ipld)
    requires Alike(v, w) && OnWire(inner)
    ensures var (a, b) := (Elements(sel, v), Elements(sel, w));
            && (a.None? <==> b.None?) && (a.Some? ==> |a.value| == |b.value|)
            && (a.Some? ==>
                  forall i :: 0 <= i < |a.value| ==> (Holds(inner, a.value[i]) <==> Holds(inner, b.value[i])))
    decreases inner, 1
  {
    hide Alike, Elements, Holds, OnWire;
    ElementsAlike(sel, v, w);
    var (a, b) := (Elements(sel, v), Elements(sel, w));
    if a.Some? {
      forall i | 0 <= i < |a.value| ensures Holds(inner, a.value[i]) <==> Holds(inner, b.value[i]) {
        HoldsAlike(inner, a.value[i], b.value[i]);
      }
    }
  }

  /** So a policy passes, or names the same statement, for both of them. */
  lemma {:induction false} CheckAlike(policy: seq<Statement>, v: Ipld, w: Ipld, i: nat)
    requires Alike(v, w) && i <= |policy| && forall k :: 0 <= k < |policy| ==> OnWire(policy[k])
    ensures Check(policy, v, i) == Check(policy, w, i)
    decreases |policy| - i
  {
    hide Alike, Holds, OnWire;
    if i < |policy| {
      HoldsAlike(policy[i], v, w);
      CheckAlike(policy, v, w, i + 1);
    }
  }

  // Where the words of the documentation and the code part

  /** `any` as documented: at least one element satisfies the statement. */
  predicate SomeElement(sel: SelectorValue, inner: Statement, args: Ipld) {
    var items := Elements(sel, args);
    items.Some? && exists i :: 0 <= i < |items.value| && Holds(inner, items.value[i])
  }

  /** The code's `any` differs exactly on an empty collection, which it lets pass. */
  lemma AnyExactly(sel: SelectorValue, inner: Statement, args: Ipld)
    ensures Holds(AnyOf(sel, inner), args) <==> SomeElement(sel, inner, args) || Elements(sel, args) == Some([])
    ensures SomeElement(sel, inner, args) ==> Elements(sel, args) != Some([])
  {
    hide Elements;
  }

  /** A statement that asks something of what one selector finds. */
  predicate Atomic(s: Statement) {
    !s.And? && !s.Or? && !s.Not?
  }

  /** A selector that finds nothing makes an atomic statement false, unless the statement is `!=`. */
  lemma UnresolvedExactly(s: Statement, args: Ipld)
    requires Atomic(s) && Resolve(s.sel.segments, args).None?
    ensures Holds(s, args) <==> s.NotEqual?
  {
    hide Resolve, Holds;
    HoldsUnresolved(s, args);
  }

  lemma HoldsUnresolved(s: Statement, args: Ipld)
    requires Atomic(s) && Resolve(s.sel.segments, args).None?
    ensures Holds(s, args) <==> s.NotEqual?
  {
    hide Resolve;
  }

  /** Both at work: `any` over an empty list, and `!=` on a key of something that has none. */
  lemma DocumentedOtherwise(inner: Statement, value: Ipld)
    ensures var whole := SelectorParser.Parsed(".", []);
            var key := SelectorParser.Parsed(".a", [S.Segment(S.Key("a"), false)]);
            && ParsedSelector(whole) && ParsedSelector(key)
            && Holds(AnyOf(whole, inner), List([])) && !SomeElement(whole, inner, List([]))
            && Holds(NotEqual(key, value), Null)
  {
    hide Holds, S.Run;
    var whole := SelectorParser.Parsed(".", []);
    var key := SelectorParser.Parsed(".a", [S.Segment(S.Key("a"), false)]);
    DotParses();
    KeyParses();
    assert Elements(whole, List([])) == Some([]);
    AnyExactly(whole, inner, List([]));
    assert Resolve(key.segments, Null).None?;
    UnresolvedExactly(NotEqual(key, value), Null);
  }

  lemma DotParses()
    ensures S.ParseText(".") == Ok([])
  {
    S.OnlyDot();
    hide S.Run;
    assert S.Meanings([]) == [];
  }

  lemma KeyParses()
    ensures S.ParseText(".a") == Ok([S.Segment(S.Key("a"), false)])
  {
    hide S.Run;
    var parts := [S.Part(true, S.Name("a"), 0)];
    assert S.PartsText(parts) == ".a" by { assert parts[1..] == []; }
    S.TreeExactlyDerives(".a", parts);
    assert S.Meanings(parts) == [S.Segment(S.Key("a"), false)];
  }

  // Everything on the wire is a wire value

  lemma {:induction false} EncodableOnWire(v: Ipld, depth: nat)
    requires C.Encodable(v, depth)
    ensures Equality.OnWire(v)
    decreases v
  {
    match v
    case List(items) =>
      forall i | 0 <= i < |items| ensures Equality.OnWire(items[i]) { EncodableOnWire(items[i], depth + 1); }
    case Map(m) =>
      forall k | k in m ensures Equality.OnWire(m[k]) { EncodableOnWire(m[k], depth + 1); }
    case _ =>
  }

  /** What decoding gives has only integers of 64 bits and sign, and finite floats. */
  lemma DecodedOnWire(lib: CidLibrary, b: seq<Byte>)
    requires lib.Lawful() && |b| <= ALLOCATION_LIMIT && F.Decode(lib, b).Ok?
    ensures Equality.OnWire(F.Decode(lib, b).value)
  {
    hide F.ReadItem, F.WriteItem, C.Encodable, Equality.OnWire, Allocated, Normal;
    var v := F.Decode(lib, b).value;
    C.DecodeExactlyEncode(lib, b, v);
    C.WriteDomain(lib, v, 0);
    EncodableOnWire(v, 0);
  }

  /** And so have the statements read from it. */
  lemma ReadOnWire(v: Ipld)
    requires Equality.OnWire(v) && FromIpld(v).Ok?
    ensures OnWire(FromIpld(v).value)
  {
    hide FromIpld, Equality.OnWire, OnWire;
    WireFormIsFaithful(v, FromIpld(v).value);
    WrittenOnWire(FromIpld(v).value);
  }

  lemma {:induction false} WrittenOnWire(s: Statement)
    requires Equality.OnWire(ToIpld(s))
    ensures OnWire(s)
    decreases s
  {
    match s
    case And(list) => WrittenAllOnWire(list); assert ToIpld(s).items[1] == List(ToIpldAll(list));
    case Or(list) => WrittenAllOnWire(list); assert ToIpld(s).items[1] == List(ToIpldAll(list));
    case Not(inner) => assert ToIpld(s).items[1] == ToIpld(inner); WrittenOnWire(inner);
    case All(sel, inner) => assert ToIpld(s).items[2] == ToIpld(inner); WrittenOnWire(inner);
    case AnyOf(sel, inner) => assert ToIpld(s).items[2] == ToIpld(inner); WrittenOnWire(inner);
    case Equal(sel, value) => assert ToIpld(s).items[2] == value;
    case NotEqual(sel, value) => assert ToIpld(s).items[2] == value;
    case Like(_, _) =>
    case _ => assert Equality.OnWire(ToIpld(s).items[2]);
  }

  lemma {:induction false} WrittenAllOnWire(list: seq<Statement>)
    ensures Equality.OnWire(List(ToIpldAll(list))) ==> forall i :: 0 <= i < |list| ==> OnWire(list[i])
    decreases list
  {
    if list != [] && Equality.OnWire(List(ToIpldAll(list))) {
      var all := ToIpldAll(list);
      assert all[0] == ToIpld(list[0]) && all[1..] == ToIpldAll(list[1..]);
      WrittenOnWire(list[0]);
      assert Equality.OnWire(List(all[1..]));
      WrittenAllOnWire(list[1..]);
      assert forall i :: 1 <= i < |list| ==> list[i] == list[1..][i - 1];
    }
  }
}
