/** Minimal unsigned LEB128. */
module Varint {
  import opened Wrappers
  import opened IpldModel
  import opened Buffers

  /** Seven bits a byte, lowest first, every byte but the last with its high bit set. */
  function Put(value: nat): (bytes: seq<Byte>)
    ensures bytes != []
  {
    if value < 128 then [value] else [128 + value % 128] + Put(value / 128)
  }

  /** What groups of seven bits say, lowest first. */
  function Denoted(bytes: seq<Byte>): nat {
    if bytes == [] then 0 else bytes[0] as int % 128 + 128 * Denoted(bytes[1..])
  }

  /** A number is its groups, each byte but the last marked, and no group of zeros in front. */
  lemma {:induction false} PutDenotes(value: nat)
    ensures var bytes := Put(value);
            && Denoted(bytes) == value && bytes[|bytes| - 1] < 128
            && (forall i :: 0 <= i < |bytes| - 1 ==> bytes[i] >= 128)
            && (|bytes| > 1 ==> bytes[|bytes| - 1] > 0)
  {
    var bytes := Put(value);
    if value < 128 {
      assert Denoted(bytes[1..]) == 0;
    } else {
      PutDenotes(value / 128);
      assert bytes[1..] == Put(value / 128);
    }
  }

  function PutAll(values: seq<U64>): seq<Byte> {
    if values == [] then [] else Put(values[0]) + PutAll(values[1..])
  }

  /** One more than what the groups from the `i`-th on can hold in a `u64`. */
  function Capacity(i: nat): (c: nat)
    requires i <= 9
    ensures c >= 2
    decreases 9 - i
  {
    if i == 9 then 2 else 128 * Capacity(i + 1)
  }

  lemma CapacityOfAll()
    ensures Capacity(0) == USIZE_END
  {
    assert Capacity(6) == 0x40_0000;
    assert Capacity(3) == 0x800_0000_0000;
  }

  /** The value of the groups from the `i`-th on, and how many there are. */
  function ReadAt(bytes: seq<Byte>, i: nat): (r: Result<(nat, nat), CodecError>)
    requires i <= 10
    ensures r.Ok? ==> i <= 9 && r.value.0 < Capacity(i) && 1 <= r.value.1 <= |bytes| - i
    decreases 10 - i
  {
    if i >= 10 || i >= |bytes| then Err(if |bytes| < 10 then UnexpectedEnd else InvalidVarint)
    else if i == 9 && bytes[i] > 1 then Err(InvalidVarint)
    else if bytes[i] < 128 then
      if i > 0 && bytes[i] == 0 then Err(InvalidVarint) else Ok((bytes[i], 1))
    else
      var (rest, n) :- ReadAt(bytes, i + 1);
      Ok((bytes[i] as int - 128 + 128 * rest, n + 1))
  }

  /** The value at the start of `bytes` and its length. */
  function Read(bytes: seq<Byte>): (r: Result<(U64, nat), CodecError>)
    ensures r.Ok? ==> 1 <= r.value.1 <= |bytes|
  {
    CapacityOfAll();
    var (value, n) :- ReadAt(bytes, 0);
    Ok((value, n))
  }

  lemma AtEnds(bytes: seq<Byte>, i: nat, part: seq<Byte>)
    requires At(bytes, i, part)
    ensures i + |part| <= |bytes|
  {
  }

  lemma {:induction false} ReadPutAt(bytes: seq<Byte>, i: nat, value: nat)
    requires i <= 9 && value < Capacity(i) && (i > 0 ==> value > 0) && At(bytes, i, Put(value))
    ensures ReadAt(bytes, i) == Ok((value, |Put(value)|))
    decreases 9 - i
  {
    AtFirst(bytes, i, Put(value));
    AtEnds(bytes, i, Put(value));
    hide At;
    if value < 128 {
      assert Put(value) == [value];
    } else {
      AtSplit(bytes, i, [128 + value % 128], Put(value / 128));
      ReadPutAt(bytes, i + 1, value / 128);
    }
  }

  lemma {:induction false} PutReadAt(bytes: seq<Byte>, i: nat)
    requires i <= 10 && ReadAt(bytes, i).Ok?
    ensures var (value, n) := ReadAt(bytes, i).value;
            (i > 0 ==> value > 0) && Put(value) == bytes[i..i + n]
    decreases 10 - i
  {
    if bytes[i] >= 128 {
      PutReadAt(bytes, i + 1);
      var (value, n) := ReadAt(bytes, i).value;
      var rest := ReadAt(bytes, i + 1).value.0;
      assert value / 128 == rest && 128 + value % 128 == bytes[i];
      assert bytes[i..i + n] == [bytes[i]] + bytes[i + 1..i + n];
    }
  }

  /** Reading gives a value exactly when its bytes stand at the start, so it reads what was put and no more. */
  lemma ReadExactlyPut(bytes: seq<Byte>, value: U64, n: nat)
    ensures Read(bytes) == Ok((value, n)) <==> n == |Put(value)| && Put(value) <= bytes
  {
    CapacityOfAll();
    if Read(bytes).Ok? {
      PutReadAt(bytes, 0);
    }
    if Put(value) <= bytes {
      assert bytes[0..|Put(value)|] == Put(value);
      ReadPutAt(bytes, 0, value);
    }
  }

  /** `x << 7 * i`. */
  function ShiftLeft(x: nat, i: nat): nat
    decreases i
  {
    if i == 0 then x else ShiftLeft(128 * x, i - 1)
  }

  lemma {:induction false} ShiftSum(x: nat, y: nat, i: nat)
    ensures ShiftLeft(x + y, i) == ShiftLeft(x, i) + ShiftLeft(y, i)
    decreases i
  {
    if i > 0 { ShiftSum(128 * x, 128 * y, i - 1); }
  }

  /** One turn of the reading loop: the group at `i` shifted in, the rest still to come. */
  lemma ReadStep(bytes: seq<Byte>, i: nat)
    requires i < 10 && i < |bytes| && (i == 9 ==> bytes[i] <= 1)
    ensures bytes[i] < 128 ==>
              ReadAt(bytes, i) == if i > 0 && bytes[i] == 0 then Err(InvalidVarint) else Ok((bytes[i] % 128, 1))
    ensures bytes[i] >= 128 ==>
              match ReadAt(bytes, i + 1)
              case Ok((rest, n)) =>
                && ReadAt(bytes, i).Ok? && ReadAt(bytes, i).value.1 == n + 1
                && ShiftLeft(ReadAt(bytes, i).value.0, i) == ShiftLeft(bytes[i] % 128, i) + ShiftLeft(rest, i + 1)
              case Err(e) => ReadAt(bytes, i) == Err(e)
  {
    hide Capacity;
    var byte: int := bytes[i];
    if byte >= 128 {
      assert byte % 128 == byte - 128;
      if ReadAt(bytes, i + 1).Ok? {
        var rest := ReadAt(bytes, i + 1).value.0;
        assert ReadAt(bytes, i).value.0 == byte % 128 + 128 * rest;
        ShiftSum(byte % 128, 128 * rest, i);
        assert ShiftLeft(rest, i + 1) == ShiftLeft(128 * rest, i);
      }
    }
  }

  lemma ReadPast(bytes: seq<Byte>, i: nat)
    requires i <= 10 && (i == 10 || i >= |bytes|)
    ensures ReadAt(bytes, i) == Err(if |bytes| < 10 then UnexpectedEnd else InvalidVarint)
  {
  }

  lemma ReadTooWide(bytes: seq<Byte>)
    requires 9 < |bytes| && bytes[9] > 1
    ensures ReadAt(bytes, 9) == Err(InvalidVarint)
  {
  }

  lemma ReadFromStart(bytes: seq<Byte>)
    ensures match ReadAt(bytes, 0)
            case Ok((value, n)) => Read(bytes) == Ok((value, n)) && ShiftLeft(value, 0) == value
            case Err(e) => Read(bytes) == Err(e)
  {
    CapacityOfAll();
  }

  method PutUvarint(initial: U64, out: Output)
    modifies out
    ensures out.bytes == old(out.bytes) + Put(initial)
  {
    var value := initial;
    while true
      invariant out.bytes + Put(value) == old(out.bytes) + Put(initial)
      decreases value
    {
      var byte := value % 128;
      ghost var previous := value;
      value := value / 128;
      if value == 0 {
        out.bytes := out.bytes + [byte];
        return;
      }
      assert Put(previous) == [byte + 128] + Put(value);
      out.bytes := out.bytes + [byte + 128];
    }
  }

  method ReadUvarint(bytes: seq<Byte>) returns (r: Result<(U64, nat), CodecError>)
    ensures r == Read(bytes)
  {
    hide ReadAt, ShiftLeft, Capacity, Read;
    ghost var all := ReadAt(bytes, 0);
    ReadFromStart(bytes);
    var value: nat := 0;
    var i := 0;
    while i < |bytes| && i < 10
      invariant 0 <= i <= 10 && i <= |bytes|
      invariant match ReadAt(bytes, i)
                case Ok((rest, n)) => all == Ok((value + ShiftLeft(rest, i), i + n))
                case Err(e) => all == Err(e)
    {
      var byte: int := bytes[i];
      if i == 9 && byte > 1 {
        ReadTooWide(bytes);
        return Err(InvalidVarint);
      }
      ReadStep(bytes, i);
      value := value + ShiftLeft(byte % 128, i);
      if byte < 128 {
        if i > 0 && byte == 0 { return Err(InvalidVarint); }
        return Ok((value, i + 1));
      }
      i := i + 1;
    }
    ReadPast(bytes, i);
    return Err(if |bytes| < 10 then UnexpectedEnd else InvalidVarint);
  }
}
