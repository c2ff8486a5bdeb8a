/** Result and option types, and the machine integers the rest of the model uses. */
module Wrappers {

  datatype Option<+T> = None | Some(value: T)

  datatype Result<+T, +E> = Ok(value: T) | Err(error: E) {
    predicate IsFailure() {
      Err?
    }

    function PropagateFailure<U>(): Result<U, E>
      requires Err?
    {
      Err(error)
    }

    function Extract(): T
      requires Ok?
    {
      value
    }
  }

  type Byte = x: int | 0 <= x < 0x100
  type U64 = x: int | 0 <= x < 0x1_0000_0000_0000_0000
  type I64 = x: int | -0x8000_0000_0000_0000 <= x < 0x8000_0000_0000_0000
  type I128 = x: int
    | -0x8000_0000_0000_0000_0000_0000_0000_0000 <= x < 0x8000_0000_0000_0000_0000_0000_0000_0000

  /** One more than the largest `usize` on a 64-bit platform. */
  const USIZE_END: int := 0x1_0000_0000_0000_0000

  /** Rust never allocates more bytes than this in one buffer. */
  const ALLOCATION_LIMIT: int := 0x7fff_ffff_ffff_ffff

  /** `part` stands in `whole` at position `pos`. */
  predicate At<T(==)>(whole: seq<T>, pos: nat, part: seq<T>) {
    pos + |part| <= |whole| && whole[pos..pos + |part|] == part
  }

  lemma AtSplit<T>(whole: seq<T>, pos: nat, a: seq<T>, b: seq<T>)
    ensures At(whole, pos, a + b) <==> At(whole, pos, a) && At(whole, pos + |a|, b)
  {
    if At(whole, pos, a + b) {
      assert whole[pos..pos + |a|] == whole[pos..pos + |a + b|][..|a|];
      assert whole[pos + |a|..pos + |a| + |b|] == whole[pos..pos + |a + b|][|a|..];
    }
    if At(whole, pos, a) && At(whole, pos + |a|, b) {
      assert whole[pos..pos + |a + b|] == whole[pos..pos + |a|] + whole[pos + |a|..pos + |a| + |b|];
    }
  }

  lemma AtFirst<T>(whole: seq<T>, pos: nat, part: seq<T>)
    requires At(whole, pos, part) && part != []
    ensures pos < |whole| && whole[pos] == part[0]
  {
    assert whole[pos] == whole[pos..pos + |part|][0];
  }

  lemma AtHead<T>(whole: seq<T>, pos: nat, part: seq<T>)
    requires At(whole, pos, part)
    ensures forall i :: 0 <= i < |part| ==> whole[pos + i] == part[i]
  {
    forall i | 0 <= i < |part| ensures whole[pos + i] == part[i] {
      assert whole[pos..pos + |part|][i] == whole[pos + i];
    }
  }
}

/** The vectors that writers append to. */
module Buffers {
  import opened Wrappers

  class Output {
    var bytes: seq<Byte>

    constructor ()
      ensures bytes == []
    {
      bytes := [];
    }
  }

  class TextOutput {
    var text: string

    constructor ()
      ensures text == ""
    {
      text := "";
    }
  }
}

/** Output written part by part and input read step by step, where any part or step may fail. */
module Writing {
  import opened Wrappers

  /** A writer that should append what `format` says, or fail as it does. */
  ghost predicate Appended<T, E>(r: Result<(), E>, format: Result<seq<T>, E>, before: seq<T>, after: seq<T>) {
    match format
    case Ok(more) => r == Ok(()) && after == before + more
    case Err(e) => r == Err(e)
  }

  /** A reading step that should give what `format` says and stop where it does, or fail as it does. */
  ghost predicate Followed<T, E>(r: Result<T, E>, format: Result<(T, nat), E>, pos: nat) {
    match format
    case Ok((value, end)) => r == Ok(value) && pos == end
    case Err(e) => r == Err(e)
  }

  /** A first part, what stands between, and the rest; or the first error of the two. */
  function Joined<T, E>(first: Result<seq<T>, E>, between: seq<T>, rest: Result<seq<T>, E>): Result<seq<T>, E> {
    match (first, rest)
    case (Ok(a), Ok(b)) => Ok(a + between + b)
    case (Ok(_), Err(e)) => Err(e)
    case (Err(e), _) => Err(e)
  }

  /** `format` is what was done and then `rest`, or the error still to come. */
  ghost predicate Completes<T, E>(format: Result<seq<T>, E>, done: seq<T>, rest: Result<seq<T>, E>) {
    match rest
    case Ok(more) => format == Ok(done + more)
    case Err(e) => format == Err(e)
  }

  lemma JoinedCompletes<T, E>(
      format: Result<seq<T>, E>, done: seq<T>, first: Result<seq<T>, E>, between: seq<T>, rest: Result<seq<T>, E>)
    requires Completes(format, done, Joined(first, between, rest))
    ensures first.Ok? ==> Completes(format, done + first.value + between, rest)
    ensures first.Err? ==> format == Err(first.error)
  {
    if first.Ok? && rest.Ok? {
      assert done + (first.value + between + rest.value) == done + first.value + between + rest.value;
    }
  }

  lemma CompletesAtStart<T, E>(format: Result<seq<T>, E>)
    ensures Completes(format, [], format)
  {
    if format.Ok? { assert [] + format.value == format.value; }
  }

  lemma CompletesAtEnd<T, E>(format: Result<seq<T>, E>, done: seq<T>)
    requires Completes(format, done, Ok([]))
    ensures format == Ok(done)
  {
    assert done + [] == done;
  }
}
