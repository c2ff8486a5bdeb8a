/** What segments find and what statements mean, as laws between them. */
module PolicyLaws {
  import opened Wrappers
  import opened IpldModel
  import opened Policy
  import P = PolicyProofs
  import Equality
  import Glob
  import KeyOrder
  import N = Numbers
  import S = Selector

  // Keys

  /** A key finds the value last put under it, and putting a value elsewhere changes nothing of that. */
  lemma KeyFinds(m: map<string, Ipld>, k: string, v: Ipld, other: string)
    ensures Step(Map(m[k := v]), S.Key(k)) == Some(v)
    ensures other != k ==> Step(Map(m[k := v]), S.Key(other)) == Step(Map(m), S.Key(other))
  {
  }

  /** A key that a map lacks finds null, and nothing but a map has keys. */
  lemma KeyMissing(m: map<string, Ipld>, v: Ipld, k: string)
    ensures k !in m ==> Step(Map(m), S.Key(k)) == Some(Null)
    ensures !v.Map? ==> Step(v, S.Key(k)) == None
  {
  }

  // Positions

  /** An item is found by how many come before it, and by how many come after it. */
  lemma IndexFinds(xs: seq<Ipld>, v: Ipld, ys: seq<Ipld>, i: I64)
    requires i == |xs| || i == -(|ys| + 1)
    ensures Step(List(xs + [v] + ys), S.Index(i)) == Some(v)
  {
  }

  lemma IndexFindsByte(xs: seq<Byte>, b: Byte, ys: seq<Byte>, i: I64)
    requires i == |xs| || i == -(|ys| + 1)
    ensures Step(Bytes(xs + [b] + ys), S.Index(i)) == Some(Integer(b))
  {
  }

  function Length(v: Ipld): (n: int)
    ensures n >= 0
  {
    match v
    case List(items) => |items|
    case Bytes(bytes) => |bytes|
    case _ => 0
  }

  /** An index finds something exactly within the length, counted from either end. */
  lemma IndexFails(v: Ipld, i: I64)
    ensures Step(v, S.Index(i)).None? <==> !(-Length(v) <= i < Length(v))
  {
  }

  // Slices

  /** The bound stands at `at` in `len` items, `open` being where it stands when it is left out. */
  predicate StandsAt(bound: Option<I64>, open: nat, len: nat, at: nat) {
    match bound
    case None => at == open
    case Some(i) => if i < 0 then len + i == at else i == at
  }

  /** A slice between two joints is what stands between them. */
  lemma SliceIsBetween(x: seq<Ipld>, y: seq<Ipld>, z: seq<Ipld>, from: Option<I64>, to: Option<I64>)
    requires var n := |x| + |y| + |z|; StandsAt(from, 0, n, |x|) && StandsAt(to, n, n, |x| + |y|)
    ensures Step(List(x + y + z), S.Slice(from, to)) == Some(List(y))
  {
    assert (x + y + z)[|x|..|x| + |y|] == y;
  }

  lemma SliceIsBetweenBytes(x: seq<Byte>, y: seq<Byte>, z: seq<Byte>, from: Option<I64>, to: Option<I64>)
    requires var n := |x| + |y| + |z|; StandsAt(from, 0, n, |x|) && StandsAt(to, n, n, |x| + |y|)
    ensures Step(Bytes(x + y + z), S.Slice(from, to)) == Some(Bytes(y))
  {
    assert (x + y + z)[|x|..|x| + |y|] == y;
  }

  /** Bounds outside the items reach to the end they lie beyond, and crossed bounds hold nothing. */
  lemma SliceReaches(items: seq<Ipld>, from: I64, to: I64)
    ensures from < -|items| ==> Step(List(items), S.Slice(Some(from), None)) == Some(List(items))
    ensures to >= |items| ==> Step(List(items), S.Slice(None, Some(to))) == Some(List(items))
    ensures Position(|items|, to) <= Position(|items|, from) ==>
              Step(List(items), S.Slice(Some(from), Some(to))) == Some(List([]))
  {
    assert items[0..|items|] == items;
    var (start, end) := Bounds(|items|, Some(from), Some(to));
    if start == end { assert items[start..end] == []; }
  }

  /** Only lists and bytes are sliced. */
  lemma SliceFails(v: Ipld, from: Option<I64>, to: Option<I64>)
    ensures Step(v, S.Slice(from, to)).None? <==> !v.List? && !v.Bytes?
  {
  }

  // Values

  /** The values of a list are the list; those of a map stand in the order of its keys as strings. */
  lemma ValuesInKeyOrder(m: map<string, Ipld>, keys: seq<string>)
    requires KeyOrder.Ascending(keys, KeyOrder.Bytewise) && forall k :: k in keys <==> k in m
    ensures Step(Map(m), S.Values)
         == Some(List(seq(|keys|, i requires 0 <= i < |keys| => assert keys[i] in keys; m[keys[i]])))
  {
    KeyOrder.BytewiseIsStrictTotal();
    KeyOrder.ListingUnique(keys, KeyOrder.Listing(m.Keys, KeyOrder.Bytewise), KeyOrder.Bytewise);
  }

  lemma ValuesOfOthers(v: Ipld)
    ensures v.List? ==> Step(v, S.Values) == Some(v)
    ensures !v.List? && !v.Map? ==> Step(v, S.Values) == None
  {
  }

  // Segments one after another

  /** Segments are followed in turn: those of `t` from where those of `s` lead, unless `s` already fails. */
  lemma {:induction false} ResolveAppend(s: seq<S.Segment>, t: seq<S.Segment>, root: Ipld)
    ensures var reached := WalkAll(s, root);
            Resolve(s + t, root) == if reached.Some? then Resolve(t, reached.value) else Resolve(s, root)
    decreases |s|
  {
    hide Step;
    if s == [] {
      assert s + t == t;
    } else {
      assert (s + t)[1..] == s[1..] + t;
      if Step(root, s[0].kind).Some? { ResolveAppend(s[1..], t, Step(root, s[0].kind).value); }
    }
  }

  /** Where a segment fails, an optional one gives null whatever follows and any other gives nothing. */
  lemma FailureEnds(s: seq<S.Segment>, failing: S.Segment, t: seq<S.Segment>, root: Ipld)
    requires WalkAll(s, root).Some? && Step(WalkAll(s, root).value, failing.kind).None?
    ensures Resolve(s + [failing] + t, root) == if failing.optional then Some(Null) else None
  {
    hide Step;
    assert s + [failing] + t == s + ([failing] + t);
    ResolveAppend(s, [failing] + t, root);
  }

  /** One segment that does not fail is one step, and no segments at all find the whole. */
  lemma OneSegment(segment: S.Segment, root: Ipld)
    ensures Resolve([], root) == Some(root)
    ensures Step(root, segment.kind).Some? ==> Resolve([segment], root) == Step(root, segment.kind)
  {
    hide Step;
  }

  // Connectives

  function Negated(list: seq<Statement>): seq<Statement> {
    seq(|list|, i requires 0 <= i < |list| => Not(list[i]))
  }

  /** `and` is the whole list as a policy: all of it passes. */
  lemma AndIsPolicy(list: seq<Statement>, args: Ipld)
    ensures Holds(And(list), args) <==> Check(list, args, 0).Ok?
  {
    hide Check;
  }

  lemma AndIsEach(list: seq<Statement>, args: Ipld)
    ensures Holds(And(list), args) <==> forall s :: s in list ==> Holds(s, args)
  {
    assert forall i :: 0 <= i < |list| ==> list[i] in list;
  }

  /** `and` of two lists together is both; of one statement, that statement; of none, true. */
  lemma AndOfLists(x: seq<Statement>, y: seq<Statement>, s: Statement, args: Ipld)
    ensures Holds(And(x + y), args) <==> Holds(And(x), args) && Holds(And(y), args)
    ensures Holds(And([s]), args) <==> Holds(s, args)
    ensures Holds(And([]), args)
  {
    hide Holds;
    AndIsEach(x, args);
    AndIsEach(y, args);
    AndIsEach(x + y, args);
    AndIsEach([s], args);
    AndIsEach([], args);
    assert forall t :: t in x + y <==> t in x || t in y;
  }

  /** `not` turns every statement round. */
  lemma NotFlips(s: Statement, args: Ipld)
    ensures Holds(Not(s), args) <==> !Holds(s, args)
    ensures Holds(Not(Not(s)), args) <==> Holds(s, args)
  {
  }

  /** `or` fails exactly when there is something in it and all of it fails. */
  lemma OrByAnd(list: seq<Statement>, args: Ipld)
    ensures Holds(Or(list), args) <==> list == [] || !Holds(And(Negated(list)), args)
  {
    var negated := Negated(list);
    forall i | 0 <= i < |list| ensures Holds(negated[i], args) <==> !Holds(list[i], args) {
      NotFlips(list[i], args);
    }
  }

  // Quantifiers

  /** What is ranged over: the items of a list, the values of a map, and of anything else nothing at all. */
  lemma ElementsAre(sel: SelectorValue, args: Ipld)
    ensures var found := Resolve(sel.segments, args);
            Elements(sel, args) ==
            if found.Some? && (found.value.List? || found.value.Map?)
            then Some(Step(found.value, S.Values).value.items) else None
  {
    hide Resolve, ValuesOf;
  }

  /** `all` fails exactly when `any` finds a counterexample, wherever there is something to range over. */
  lemma AllByAny(sel: SelectorValue, inner: Statement, args: Ipld)
    requires Elements(sel, args).Some? && Elements(sel, args).value != []
    ensures Holds(All(sel, inner), args) <==> !Holds(AnyOf(sel, Not(inner)), args)
  {
    hide Elements;
    var items := Elements(sel, args).value;
    forall i | 0 <= i < |items| ensures Holds(Not(inner), items[i]) <==> !Holds(inner, items[i]) {
      NotFlips(inner, items[i]);
    }
  }

  /** `all` over some items is `and` of what the statement says of each. */
  lemma AllIsEach(sel: SelectorValue, inner: Statement, args: Ipld)
    ensures Holds(All(sel, inner), args) <==>
            Elements(sel, args).Some? && forall v :: v in Elements(sel, args).value ==> Holds(inner, v)
    ensures Elements(sel, args).None? ==> !Holds(All(sel, inner), args) && !Holds(AnyOf(sel, inner), args)
  {
    hide Elements;
    if Elements(sel, args).Some? {
      var items := Elements(sel, args).value;
      assert forall i :: 0 <= i < |items| ==> items[i] in items;
    }
  }

  // Comparisons

  /** The number a selector finds, by its exact value in units of 2^-1074. */
  ghost function Worth(sel: SelectorValue, args: Ipld): Option<int> {
    match Resolve(sel.segments, args)
    case None => None
    case Some(found) =>
      match Equality.NumberOf(found)
      case Some(n) => Some(N.Value(n))
      case None => None
  }

  /** The four orderings are those of the real numbers, and fail on anything else than a number. */
  lemma OrderingsMean(sel: SelectorValue, n: N.Number, args: Ipld)
    requires Equality.OnWire(args) && N.OnWire(n)
    ensures var found := Worth(sel, args);
            && (Holds(Less(sel, n), args) <==> found.Some? && found.value < N.Value(n))
            && (Holds(LessOrEqual(sel, n), args) <==> found.Some? && found.value <= N.Value(n))
            && (Holds(Greater(sel, n), args) <==> found.Some? && found.value > N.Value(n))
            && (Holds(GreaterOrEqual(sel, n), args) <==> found.Some? && found.value >= N.Value(n))
  {
    P.ComparedByValue(sel, args, n, {N.Less});
    P.ComparedByValue(sel, args, n, {N.Less, N.Same});
    P.ComparedByValue(sel, args, n, {N.Greater});
    P.ComparedByValue(sel, args, n, {N.Greater, N.Same});
    hide Compared, Resolve, N.Value, Equality.OnWire;
  }

  /** `==` with a number is neither less nor greater, and `!=` is its opposite. */
  lemma EqualBetweenOrderings(sel: SelectorValue, n: N.Number, args: Ipld)
    requires Equality.OnWire(args) && N.OnWire(n)
    ensures Holds(Equal(sel, Equality.OfNumber(n)), args) <==>
            Holds(LessOrEqual(sel, n), args) && Holds(GreaterOrEqual(sel, n), args)
  {
    OrderingsMean(sel, n, args);
    FoundIsOnWire(sel, args);
    var found := Resolve(sel.segments, args);
    if found.Some? && Equality.NumberOf(found.value).Some? {
      Equality.NumbersByValue(found.value, Equality.OfNumber(n));
    }
    hide Resolve, Compared, N.Value;
  }

  lemma FoundIsOnWire(sel: SelectorValue, args: Ipld)
    requires Equality.OnWire(args)
    ensures Resolve(sel.segments, args).Some? ==> Equality.OnWire(Resolve(sel.segments, args).value)
  {
    hide Resolve, Equality.OnWire;
    P.AlikeToItself(args);
    P.ResolveAlike(sel.segments, args, args);
  }

  /** `==` holds of what is found when that is worth the same, part by part. */
  lemma EqualMeans(sel: SelectorValue, value: Ipld, args: Ipld)
    requires Equality.OnWire(args) && Equality.OnWire(value)
    ensures var found := Resolve(sel.segments, args);
            Holds(Equal(sel, value), args) <==>
            found.Some? && Equality.WorthOf(found.value) == Equality.WorthOf(value)
    ensures Holds(NotEqual(sel, value), args) <==> !Holds(Equal(sel, value), args)
  {
    hide Resolve, Equality.OnWire, Equality.Equal, Equality.WorthOf;
    FoundIsOnWire(sel, args);
    var found := Resolve(sel.segments, args);
    if found.Some? { Equality.EqualExactly(found.value, value); }
  }

  /** `like` takes a string exactly when the pattern, whose stars are escaped, spells it. */
  lemma LikeSpelled(sel: SelectorValue, text: string, args: Ipld)
    ensures Holds(Like(sel, PatternOf(Glob.Quoted(text))), args) <==> Resolve(sel.segments, args) == Some(String(text))
  {
    hide Resolve, Glob.Tokens, Glob.Quoted, Glob.Means;
    var found := Resolve(sel.segments, args);
    if found.Some? && found.value.String? { Glob.QuotedMeansItself(text, found.value.text); }
  }

  /** With a star after it, exactly the strings that begin with it. */
  lemma LikeBeginning(sel: SelectorValue, text: string, args: Ipld)
    requires text == "" || text[|text| - 1] != '\\'
    ensures Holds(Like(sel, PatternOf(Glob.Quoted(text) + "*")), args) <==>
            var found := Resolve(sel.segments, args); found.Some? && found.value.String? && text <= found.value.text
  {
    hide Resolve, Glob.Tokens, Glob.Quoted, Glob.Means;
    var found := Resolve(sel.segments, args);
    if found.Some? && found.value.String? { Glob.QuotedBeginning(text, found.value.text); }
  }

  // From the wire to the answer

  /** A statement of three parts, read and asked of some arguments. */
  function Asked(op: string, sel: SelectorValue, value: Ipld, args: Ipld): Option<bool> {
    match FromIpld(List([String(op), String(sel.text), value]))
    case Ok(s) => Some(Holds(s, args))
    case Err(_) => None
  }

  /** The written comparisons mean what their signs say. */
  lemma WireComparisons(sel: SelectorValue, n: N.Number, args: Ipld)
    requires ParsedSelector(sel) && Equality.OnWire(args) && N.OnWire(n)
    ensures var found, value, right := Worth(sel, args), Equality.OfNumber(n), N.Value(n);
            && Asked("<", sel, value, args) == Some(found.Some? && found.value < right)
            && Asked("<=", sel, value, args) == Some(found.Some? && found.value <= right)
            && Asked(">", sel, value, args) == Some(found.Some? && found.value > right)
            && Asked(">=", sel, value, args) == Some(found.Some? && found.value >= right)
            && Asked("==", sel, value, args) == Some(found.Some? && found.value == right)
            && Asked("!=", sel, value, args) == Some(!(found.Some? && found.value == right))
  {
    OrderingsMean(sel, n, args);
    EqualBetweenOrderings(sel, n, args);
    EqualMeans(sel, Equality.OfNumber(n), args);
    ReadTriple("<", sel, Equality.OfNumber(n));
    ReadTriple("<=", sel, Equality.OfNumber(n));
    ReadTriple(">", sel, Equality.OfNumber(n));
    ReadTriple(">=", sel, Equality.OfNumber(n));
    ReadTriple("==", sel, Equality.OfNumber(n));
    ReadTriple("!=", sel, Equality.OfNumber(n));
    hide Holds, FromIpld, Worth, N.Value, ParsedSelector, Resolve, Equality.OnWire, Equality.WorthOf;
  }

  lemma ReadTriple(op: string, sel: SelectorValue, value: Ipld)
    requires ParsedSelector(sel) && op in {"<", "<=", ">", ">=", "==", "!="}
    requires op !in {"==", "!="} ==> Equality.NumberOf(value).Some?
    ensures var n := Equality.NumberOf(value);
            FromIpld(List([String(op), String(sel.text), value])) ==
            Ok(if op == "==" then Equal(sel, value) else if op == "!=" then NotEqual(sel, value)
               else if op == "<" then Less(sel, n.value) else if op == "<=" then LessOrEqual(sel, n.value)
               else if op == ">" then Greater(sel, n.value) else GreaterOrEqual(sel, n.value))
  {
    hide S.ParseText, Glob.Tokens;
  }

  /** The written connectives: a list under `and` or `or`, and what stands after `not`. */
  lemma WireConnectives(a: Ipld, b: Ipld, args: Ipld)
    requires FromIpld(a).Ok? && FromIpld(b).Ok?
    ensures var x, y := Holds(FromIpld(a).value, args), Holds(FromIpld(b).value, args);
            && AskedOf(List([String("and"), List([a, b])]), args) == Some(x && y)
            && AskedOf(List([String("or"), List([a, b])]), args) == Some(x || y)
            && AskedOf(List([String("not"), a]), args) == Some(!x)
            && AskedOf(List([String("and"), List([])]), args) == Some(true)
            && AskedOf(List([String("or"), List([])]), args) == Some(true)
  {
    hide Holds, FromIpld, FromIpldAll;
    var x, y := FromIpld(a).value, FromIpld(b).value;
    ReadPair(a, b);
    ReadConnectives([a, b], a);
    ReadConnectives([], a);
    BothOrEither(x, y, args);
    NotFlips(x, args);
  }

  lemma BothOrEither(x: Statement, y: Statement, args: Ipld)
    ensures Holds(And([x, y]), args) <==> Holds(x, args) && Holds(y, args)
    ensures Holds(Or([x, y]), args) <==> Holds(x, args) || Holds(y, args)
    ensures Holds(And([]), args) && Holds(Or([]), args)
  {
    hide Holds;
    AndIsEach([x, y], args);
    AndIsEach([Not(x), Not(y)], args);
    AndIsEach([], args);
    OrByAnd([x, y], args);
    OrByAnd([], args);
    assert Negated([x, y]) == [Not(x), Not(y)];
    NotFlips(x, args);
    NotFlips(y, args);
  }

  /** The written quantifiers, over whatever statement stands in them. */
  lemma WireQuantifiers(sel: SelectorValue, inner: Ipld, args: Ipld)
    requires ParsedSelector(sel) && FromIpld(inner).Ok?
    ensures var s, items := FromIpld(inner).value, Elements(sel, args);
            && Asked("all", sel, inner, args) == Some(items.Some? && forall v :: v in items.value ==> Holds(s, v))
            && Asked("any", sel, inner, args)
               == Some(items.Some? && (items.value == [] || exists v :: v in items.value && Holds(s, v)))
  {
    var s := FromIpld(inner).value;
    ReadQuantifiers(sel, inner);
    AllIsEach(sel, s, args);
    P.AnyExactly(sel, s, args);
    hide Elements, FromIpld, ParsedSelector, Holds;
    if P.SomeElement(sel, s, args) {
      var items := Elements(sel, args).value;
      var i :| 0 <= i < |items| && Holds(s, items[i]);
      assert items[i] in items;
    }
  }

  lemma ReadQuantifiers(sel: SelectorValue, inner: Ipld)
    requires ParsedSelector(sel) && FromIpld(inner).Ok?
    ensures FromIpld(List([String("all"), String(sel.text), inner])) == Ok(All(sel, FromIpld(inner).value))
    ensures FromIpld(List([String("any"), String(sel.text), inner])) == Ok(AnyOf(sel, FromIpld(inner).value))
  {
    hide FromIpld, ToIpld, Parsed, ParsedSelector;
    var s := FromIpld(inner).value;
    WriteRead(inner);
    WriteQuantifiers(sel, s);
    WireFormIsFaithful(List([String("all"), String(sel.text), inner]), All(sel, s));
    WireFormIsFaithful(List([String("any"), String(sel.text), inner]), AnyOf(sel, s));
  }

  lemma WriteQuantifiers(sel: SelectorValue, s: Statement)
    requires ParsedSelector(sel) && Parsed(s)
    ensures Parsed(All(sel, s)) && ToIpld(All(sel, s)) == List([String("all"), String(sel.text), ToIpld(s)])
    ensures Parsed(AnyOf(sel, s)) && ToIpld(AnyOf(sel, s)) == List([String("any"), String(sel.text), ToIpld(s)])
  {
    hide ParsedSelector;
  }

  /** The written `like`, with a text spelled out. */
  lemma WireLike(sel: SelectorValue, text: string, args: Ipld)
    requires ParsedSelector(sel)
    ensures Asked("like", sel, String(Glob.Quoted(text)), args)
         == Some(Resolve(sel.segments, args) == Some(String(text)))
  {
    LikeSpelled(sel, text, args);
    ReadLike(sel, Glob.Quoted(text));
    hide FromIpld, Holds, Resolve, Glob.Quoted, PatternOf;
  }

  lemma ReadLike(sel: SelectorValue, pattern: string)
    requires ParsedSelector(sel)
    ensures FromIpld(List([String("like"), String(sel.text), String(pattern)])) == Ok(Like(sel, PatternOf(pattern)))
  {
    hide S.ParseText, Glob.Tokens, FromIpldAll;
  }

  function AskedOf(v: Ipld, args: Ipld): Option<bool> {
    match FromIpld(v)
    case Ok(s) => Some(Holds(s, args))
    case Err(_) => None
  }

  lemma ReadPair(a: Ipld, b: Ipld)
    requires FromIpld(a).Ok? && FromIpld(b).Ok?
    ensures FromIpldAll([a, b]) == Ok([FromIpld(a).value, FromIpld(b).value]) && FromIpldAll([]) == Ok([])
  {
    hide FromIpld;
    ReadAllStep(b, []);
    assert [b] + [] == [b] && [a] + [b] == [a, b];
    ReadAllStep(a, [b]);
    var x, y := FromIpld(a).value, FromIpld(b).value;
    assert [y] + [] == [y] && [x] + [y] == [x, y];
  }

  lemma ReadAllStep(first: Ipld, rest: seq<Ipld>)
    requires FromIpld(first).Ok? && FromIpldAll(rest).Ok?
    ensures FromIpldAll([first] + rest) == Ok([FromIpld(first).value] + FromIpldAll(rest).value)
  {
    hide FromIpld;
    assert ([first] + rest)[1..] == rest;
  }

  lemma ReadConnectives(list: seq<Ipld>, a: Ipld)
    requires FromIpldAll(list).Ok? && FromIpld(a).Ok?
    ensures FromIpld(List([String("and"), List(list)])) == Ok(And(FromIpldAll(list).value))
    ensures FromIpld(List([String("or"), List(list)])) == Ok(Or(FromIpldAll(list).value))
    ensures FromIpld(List([String("not"), a])) == Ok(Not(FromIpld(a).value))
  {
    hide FromIpldAll, ReadSelector, ReadNumber, S.ParseText, Glob.Tokens;
  }

  const COMPARISONS: set<string> := {"<", "<=", ">", ">="}
  const LISTS: set<string> := {"and", "or"}
  const SELECTIONS: set<string> := {"==", "!=", "<", "<=", ">", ">=", "all", "any"}

  /** A list that begins with one of these operators, of `n` parts in all. */
  predicate Shaped(v: Ipld, ops: set<string>, n: nat) {
    v.List? && |v.items| == n > 0 && v.items[0].String? && v.items[0].text in ops
  }

  /** Why what is no statement is refused, before any statement inside it is looked at. */
  lemma ReadRefuses(v: Ipld, n: nat)
    ensures !v.List? ==> FromIpld(v) == Err(StatementNotAList)
    ensures v.List? && (v.items == [] || !v.items[0].String?) ==> FromIpld(v) == Err(MissingOperator)
    ensures v.List? && v.items != [] && v.items[0].String? ==>
              var op := v.items[0].text;
              op !in SELECTIONS + LISTS + {"not", "like"} ==> FromIpld(v) == Err(UnknownOperator(op))
    ensures Shaped(v, LISTS + {"not"}, n) && n != 2 ==> FromIpld(v) == Err(Arity(v.items[0].text))
    ensures Shaped(v, SELECTIONS + {"like"}, n) && n != 3 ==> FromIpld(v) == Err(Arity(v.items[0].text))
    ensures Shaped(v, LISTS, 2) && !v.items[1].List? ==> FromIpld(v) == Err(ExpectedStatementList)
    ensures Shaped(v, {"like"}, 3) && !v.items[2].String? ==> FromIpld(v) == Err(ExpectedString)
    ensures Shaped(v, SELECTIONS, 3) && !v.items[1].String? ==> FromIpld(v) == Err(ExpectedSelector)
    ensures Shaped(v, SELECTIONS, 3) && v.items[1].String? && S.ParseText(v.items[1].text).Err? ==>
              FromIpld(v) == Err(BadSelector(S.ParseText(v.items[1].text).error))
    ensures Shaped(v, COMPARISONS, 3) && ReadSelector(v.items).Ok? && !v.items[2].Integer? && !v.items[2].Float? ==>
              FromIpld(v) == Err(ExpectedNumber)
  {
    hide S.ParseText, Glob.Tokens, FromIpldAll;
  }
}
