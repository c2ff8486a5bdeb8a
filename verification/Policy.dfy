/** The policy language: statements, their wire form, and when they hold of some arguments. */
module Policy {
  import opened Wrappers
  import opened IpldModel
  import S = Selector
  import SelectorParser
  import Glob
  import Equality
  import KeyOrder
  import N = Numbers

  type SelectorValue = SelectorParser.Parsed

  datatype Statement =
    | Equal(sel: SelectorValue, value: Ipld)
    | NotEqual(sel: SelectorValue, value: Ipld)
    | Less(sel: SelectorValue, n: N.Number)
    | LessOrEqual(sel: SelectorValue, n: N.Number)
    | Greater(sel: SelectorValue, n: N.Number)
    | GreaterOrEqual(sel: SelectorValue, n: N.Number)
    | Like(sel: SelectorValue, pattern: Glob.Pattern)
    | And(list: seq<Statement>)
    | Or(list: seq<Statement>)
    | Not(inner: Statement)
    | All(sel: SelectorValue, inner: Statement)
    | AnyOf(sel: SelectorValue, inner: Statement)

  datatype PolicyError =
    | NotAList
    | StatementNotAList
    | MissingOperator
    | UnknownOperator(op: string)
    | Arity(op: string)
    | ExpectedSelector
    | BadSelector(error: S.SelectorError)
    | ExpectedNumber
    | ExpectedStatementList
    | ExpectedString

  /** A selector or pattern exists only as the result of parsing its text. */
  ghost predicate ParsedSelector(sel: SelectorValue) {
    S.ParseText(sel.text) == Ok(sel.segments)
  }

  function PatternOf(text: string): Glob.Pattern {
    Glob.Pattern(text, Glob.Tokens(text, 0, false))
  }

  ghost predicate Parsed(s: Statement) {
    match s
    case And(list) => forall i :: 0 <= i < |list| ==> Parsed(list[i])
    case Or(list) => forall i :: 0 <= i < |list| ==> Parsed(list[i])
    case Not(inner) => Parsed(inner)
    case All(sel, inner) => ParsedSelector(sel) && Parsed(inner)
    case AnyOf(sel, inner) => ParsedSelector(sel) && Parsed(inner)
    case Like(sel, pattern) => ParsedSelector(sel) && pattern == PatternOf(pattern.text)
    case _ => ParsedSelector(s.sel)
  }

  // The wire form

  function ReadSelector(items: seq<Ipld>): Result<SelectorValue, PolicyError> {
    if |items| > 1 && items[1].String? then
      match S.ParseText(items[1].text)
      case Ok(segments) => Ok(SelectorParser.Parsed(items[1].text, segments))
      case Err(e) => Err(BadSelector(e))
    else Err(ExpectedSelector)
  }

  function ReadNumber(v: Ipld): Result<N.Number, PolicyError> {
    match Equality.NumberOf(v)
    case Some(n) => Ok(n)
    case None => Err(ExpectedNumber)
  }

  const OPERATORS: set<string> :=
    {"==", "!=", "<", "<=", ">", ">=", "like", "and", "or", "not", "all", "any"}

  function FromIpld(v: Ipld): Result<Statement, PolicyError>
    decreases v, 1
  {
    if !v.List? then Err(StatementNotAList)
    else if v.items == [] || !v.items[0].String? then Err(MissingOperator)
    else
      var items, op := v.items, v.items[0].text;
      if op !in OPERATORS then Err(UnknownOperator(op))
      else if |items| != (if op in {"and", "or", "not"} then 2 else 3) then Err(Arity(op))
      else if op in {"and", "or"} then
        if !items[1].List? then Err(ExpectedStatementList)
        else
          var list :- FromIpldAll(items[1].items);
          Ok(if op == "and" then And(list) else Or(list))
      else if op == "not" then
        var inner :- FromIpld(items[1]);
        Ok(Not(inner))
      else if op == "like" && !items[2].String? then Err(ExpectedString)
      else
        var sel :- ReadSelector(items);
        if op == "==" then Ok(Equal(sel, items[2]))
        else if op == "!=" then Ok(NotEqual(sel, items[2]))
        else if op == "like" then Ok(Like(sel, PatternOf(items[2].text)))
        else if op in {"all", "any"} then
          var inner :- FromIpld(items[2]);
          Ok(if op == "all" then All(sel, inner) else AnyOf(sel, inner))
        else
          var n :- ReadNumber(items[2]);
          Ok(if op == "<" then Less(sel, n)
             else if op == "<=" then LessOrEqual(sel, n)
             else if op == ">" then Greater(sel, n)
             else GreaterOrEqual(sel, n))
  }

  function FromIpldAll(list: seq<Ipld>): Result<seq<Statement>, PolicyError>
    decreases list, 0
  {
    if list == [] then Ok([])
    else
      var first :- FromIpld(list[0]);
      var rest :- FromIpldAll(list[1..]);
      Ok([first] + rest)
  }

  function Triple(op: string, sel: SelectorValue, value: Ipld): Ipld {
    List([String(op), String(sel.text), value])
  }

  function ToIpld(s: Statement): Ipld
    decreases s, 1
  {
    match s
    case Equal(sel, value) => Triple("==", sel, value)
    case NotEqual(sel, value) => Triple("!=", sel, value)
    case Less(sel, n) => Triple("<", sel, Equality.OfNumber(n))
    case LessOrEqual(sel, n) => Triple("<=", sel, Equality.OfNumber(n))
    case Greater(sel, n) => Triple(">", sel, Equality.OfNumber(n))
    case GreaterOrEqual(sel, n) => Triple(">=", sel, Equality.OfNumber(n))
    case Like(sel, pattern) => Triple("like", sel, String(pattern.text))
    case And(list) => List([String("and"), List(ToIpldAll(list))])
    case Or(list) => List([String("or"), List(ToIpldAll(list))])
    case Not(inner) => List([String("not"), ToIpld(inner)])
    case All(sel, inner) => Triple("all", sel, ToIpld(inner))
    case AnyOf(sel, inner) => Triple("any", sel, ToIpld(inner))
  }

  function ToIpldAll(list: seq<Statement>): seq<Ipld>
    decreases list, 0
  {
    if list == [] then [] else [ToIpld(list[0])] + ToIpldAll(list[1..])
  }

  function PolicyFromIpld(v: Ipld): Result<seq<Statement>, PolicyError> {
    if v.List? then FromIpldAll(v.items) else Err(NotAList)
  }

  function PolicyToIpld(policy: seq<Statement>): Ipld {
    List(ToIpldAll(policy))
  }

  /** What was written is read back as the same statement. */
  lemma {:induction false} ReadWritten(s: Statement)
    requires Parsed(s)
    ensures FromIpld(ToIpld(s)) == Ok(s)
    decreases s, 1
  {
    hide S.ParseText, Glob.Tokens;
    match s
    case And(list) => ReadWrittenAll(list);
    case Or(list) => ReadWrittenAll(list);
    case Not(inner) => ReadWritten(inner);
    case All(_, inner) => ReadWritten(inner);
    case AnyOf(_, inner) => ReadWritten(inner);
    case _ =>
  }

  lemma {:induction false} ReadWrittenAll(list: seq<Statement>)
    requires forall i :: 0 <= i < |list| ==> Parsed(list[i])
    ensures FromIpldAll(ToIpldAll(list)) == Ok(list)
    decreases list, 0
  {
    hide FromIpld, ToIpld, Parsed;
    if list != [] {
      ReadWritten(list[0]);
      ReadWrittenAll(list[1..]);
      var wire := ToIpldAll(list);
      assert wire[0] == ToIpld(list[0]) && wire[1..] == ToIpldAll(list[1..]);
      assert [list[0]] + list[1..] == list;
    }
  }

  /** What was read is written back verbatim. */
  lemma {:induction false} WriteRead(v: Ipld)
    requires FromIpld(v).Ok?
    ensures Parsed(FromIpld(v).value) && ToIpld(FromIpld(v).value) == v
    decreases v, 1
  {
    hide S.ParseText, Glob.Tokens;
    var items, op := v.items, v.items[0].text;
    if op in {"and", "or"} {
      WriteReadAll(items[1].items);
      assert items == [String(op), items[1]];
    } else if op == "not" {
      WriteRead(items[1]);
      assert items == [String(op), items[1]];
    } else {
      assert items == [String(op), String(items[1].text), items[2]];
      if op in {"all", "any"} { WriteRead(items[2]); }
    }
  }

  lemma {:induction false} WriteReadAll(list: seq<Ipld>)
    requires FromIpldAll(list).Ok?
    ensures var read := FromIpldAll(list).value;
            (forall i :: 0 <= i < |read| ==> Parsed(read[i])) && ToIpldAll(read) == list
    decreases list, 0
  {
    hide FromIpld, ToIpld, Parsed;
    if list != [] {
      WriteRead(list[0]);
      WriteReadAll(list[1..]);
      var read := FromIpldAll(list).value;
      assert read[1..] == FromIpldAll(list[1..]).value;
    }
  }

  /** The wire form is faithful both ways. */
  lemma WireFormIsFaithful(v: Ipld, s: Statement)
    ensures FromIpld(v) == Ok(s) <==> Parsed(s) && ToIpld(s) == v
  {
    hide FromIpld, ToIpld, Parsed;
    if FromIpld(v) == Ok(s) { WriteRead(v); }
    if Parsed(s) && ToIpld(s) == v { ReadWritten(s); }
  }

  lemma PolicyWireFormIsFaithful(v: Ipld, policy: seq<Statement>)
    ensures PolicyFromIpld(v) == Ok(policy)
       <==> (forall i :: 0 <= i < |policy| ==> Parsed(policy[i])) && PolicyToIpld(policy) == v
  {
    hide FromIpldAll, ToIpldAll, Parsed;
    if PolicyFromIpld(v) == Ok(policy) { WriteReadAll(v.items); }
    if (forall i :: 0 <= i < |policy| ==> Parsed(policy[i])) && PolicyToIpld(policy) == v {
      ReadWrittenAll(policy);
    }
  }

  // Resolution

  /** The position an index names, if it is within `len` items. */
  function IndexOf(len: nat, i: I64): Option<nat> {
    if i < 0 then if -(i as int) <= len then Some(len + i) else None
    else if i < len then Some(i) else None
  }

  function Clamp(len: nat, i: I64): nat {
    if i < 0 then if -(i as int) <= len then len + i else 0
    else if i < len then i else len
  }

  /** Where a slice starts and ends. */
  function Bounds(len: nat, from: Option<I64>, to: Option<I64>): (r: (nat, nat))
    ensures r.0 <= r.1 <= len
  {
    var start := if from.Some? then Clamp(len, from.value) else 0;
    var end := if to.Some? then Clamp(len, to.value) else len;
    (start, if end < start then start else end)
  }

  /** A bound as a position, a negative one counted back from the end. */
  function Position(len: nat, i: I64): int {
    if i < 0 then len + i else i
  }

  /** A slice holds the positions at or after its first bound and before its second. */
  lemma SliceHolds(len: nat, from: Option<I64>, to: Option<I64>, k: nat)
    requires k < len
    ensures var (start, end) := Bounds(len, from, to);
            start <= k < end <==>
              ((from.Some? ==> Position(len, from.value) <= k) && (to.Some? ==> k < Position(len, to.value)))
  {
  }

  function ValuesOf(m: map<string, Ipld>): seq<Ipld> {
    KeyOrder.BytewiseIsStrictTotal();
    var keys := KeyOrder.Listing(m.Keys, KeyOrder.Bytewise);
    seq(|keys|, i requires 0 <= i < |keys| => assert keys[i] in keys; m[keys[i]])
  }

  /** One segment applied to a value. */
  function Step(v: Ipld, kind: S.Kind): Option<Ipld> {
    match (kind, v)
    case (Key(name), Map(m)) => Some(if name in m then m[name] else Null)
    case (Values, List(_)) => Some(v)
    case (Values, Map(m)) => Some(List(ValuesOf(m)))
    case (Index(i), List(items)) =>
      var k := IndexOf(|items|, i);
      if k.Some? then Some(items[k.value]) else None
    case (Index(i), Bytes(bytes)) =>
      var k := IndexOf(|bytes|, i);
      if k.Some? then Some(Integer(bytes[k.value])) else None
    case (Slice(from, to), List(items)) =>
      var (start, end) := Bounds(|items|, from, to);
      Some(List(items[start..end]))
    case (Slice(from, to), Bytes(bytes)) =>
      var (start, end) := Bounds(|bytes|, from, to);
      Some(Bytes(bytes[start..end]))
    case _ => None
  }

  /** What the segments find, a failing optional segment giving null for the whole selector. */
  function Resolve(segments: seq<S.Segment>, root: Ipld): Option<Ipld>
    decreases |segments|
  {
    if segments == [] then Some(root)
    else match Step(root, segments[0].kind)
      case Some(next) => Resolve(segments[1..], next)
      case None => if segments[0].optional then Some(Null) else None
  }

  method ResolveSelector(sel: SelectorValue, root: Ipld) returns (r: Option<Ipld>)
    ensures r == Resolve(sel.segments, root)
  {
    var current := root;
    var i := 0;
    assert sel.segments[0..] == sel.segments;
    while i < |sel.segments|
      invariant 0 <= i <= |sel.segments|
      invariant Resolve(sel.segments[i..], current) == Resolve(sel.segments, root)
    {
      var segment := sel.segments[i];
      assert sel.segments[i..][1..] == sel.segments[i + 1..];
      match Step(current, segment.kind) {
        case Some(value) => current := value;
        case None => return if segment.optional then Some(Null) else None;
      }
      i := i + 1;
    }
    return Some(current);
  }

  /** A selector comes to nothing exactly when the first segment to fail is not optional. */
  lemma {:induction false} ResolveFailsWhen(segments: seq<S.Segment>, root: Ipld)
    ensures Resolve(segments, root).None? <==> exists k :: 0 <= k < |segments| && FailsAt(segments, k, root)
    decreases |segments|
  {
    hide Step;
    if segments != [] {
      var next := Step(root, segments[0].kind);
      assert Walk(segments, 0, root) == Some(root);
      if next.Some? {
        var rest := segments[1..];
        ResolveFailsWhen(rest, next.value);
        forall k | 0 < k < |segments| ensures Walk(segments, k, root) == Walk(rest, k - 1, next.value) {
          assert rest[..k - 1] == segments[..k][1..];
        }
        if Resolve(rest, next.value).None? {
          var k :| 0 <= k < |rest| && FailsAt(rest, k, next.value);
          assert Walk(segments, k + 1, root) == Walk(rest, k, next.value) && segments[k + 1] == rest[k];
          assert FailsAt(segments, k + 1, root);
        }
        if k :| 0 <= k < |segments| && FailsAt(segments, k, root) {
          assert k > 0 && rest[k - 1] == segments[k];
          assert FailsAt(rest, k - 1, next.value);
        }
      } else {
        forall k | 0 < k < |segments| ensures Walk(segments, k, root).None? {
          assert segments[..k][0] == segments[0];
        }
        assert FailsAt(segments, 0, root) <==> !segments[0].optional;
      }
    }
  }

  /** The segments before `k` succeed, and the `k`-th fails and is not optional. */
  ghost predicate FailsAt(segments: seq<S.Segment>, k: nat, root: Ipld)
    requires k < |segments|
  {
    var reached := Walk(segments, k, root);
    !segments[k].optional && reached.Some? && Step(reached.value, segments[k].kind).None?
  }

  /** The value reached when the first `k` segments all succeed. */
  function Walk(segments: seq<S.Segment>, k: nat, root: Ipld): Option<Ipld>
    requires k <= |segments|
  {
    WalkAll(segments[..k], root)
  }

  function WalkAll(segments: seq<S.Segment>, root: Ipld): Option<Ipld> {
    if segments == [] then Some(root)
    else match Step(root, segments[0].kind)
      case Some(next) => WalkAll(segments[1..], next)
      case None => None
  }

  // Evaluation

  /** The items a quantifier ranges over. */
  function Elements(sel: SelectorValue, args: Ipld): Option<seq<Ipld>> {
    match Resolve(sel.segments, args)
    case Some(List(items)) => Some(items)
    case Some(Map(m)) => Some(ValuesOf(m))
    case _ => None
  }

  predicate Compared(sel: SelectorValue, args: Ipld, right: N.Number, accept: set<N.Ordering>) {
    match Resolve(sel.segments, args)
    case None => false
    case Some(found) =>
      Equality.NumberOf(found).Some?
      && var o := N.PartialCompare(Equality.NumberOf(found).value, right); o.Some? && o.value in accept
  }

  predicate Selected(sel: SelectorValue, args: Ipld, value: Ipld) {
    var found := Resolve(sel.segments, args);
    found.Some? && Equality.Equal(found.value, value)
  }

  /** Whether a statement holds; one that cannot be evaluated does not. */
  predicate Holds(s: Statement, args: Ipld)
    decreases s
  {
    match s
    case Equal(sel, value) => Selected(sel, args, value)
    case NotEqual(sel, value) => !Selected(sel, args, value)
    case Less(sel, n) => Compared(sel, args, n, {N.Less})
    case LessOrEqual(sel, n) => Compared(sel, args, n, {N.Less, N.Same})
    case Greater(sel, n) => Compared(sel, args, n, {N.Greater})
    case GreaterOrEqual(sel, n) => Compared(sel, args, n, {N.Greater, N.Same})
    case Like(sel, pattern) =>
      var found := Resolve(sel.segments, args);
      found.Some? && found.value.String? && Glob.Means(pattern.text, 0, found.value.text, 0)
    case And(list) => forall i :: 0 <= i < |list| ==> Holds(list[i], args)
    case Or(list) => list == [] || exists i :: 0 <= i < |list| && Holds(list[i], args)
    case Not(inner) => !Holds(inner, args)
    case All(sel, inner) =>
      var items := Elements(sel, args);
      items.Some? && forall i :: 0 <= i < |items.value| ==> Holds(inner, items.value[i])
    case AnyOf(sel, inner) =>
      var items := Elements(sel, args);
      items.Some? && (items.value == [] || exists i :: 0 <= i < |items.value| && Holds(inner, items.value[i]))
  }

  /** The first statement from `i` on that does not hold. */
  function Check(policy: seq<Statement>, args: Ipld, i: nat): (r: Result<(), nat>)
    requires i <= |policy|
    ensures r.Ok? <==> forall k :: i <= k < |policy| ==> Holds(policy[k], args)
    ensures r.Err? ==> i <= r.error < |policy| && !Holds(policy[r.error], args)
                       && forall k :: i <= k < r.error ==> Holds(policy[k], args)
    decreases |policy| - i
  {
    if i == |policy| then Ok(())
    else if !Holds(policy[i], args) then Err(i)
    else Check(policy, args, i + 1)
  }
}
