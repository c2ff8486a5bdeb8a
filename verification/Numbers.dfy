/** Numbers in a policy: integers and binary64 floats, compared by value. */
module Numbers {
  import opened Wrappers
  import opened IpldModel

  datatype Ordering = Less | Same | Greater

  function Compare(a: int, b: int): Ordering {
    if a < b then Less else if a == b then Same else Greater
  }

  function Reverse(o: Ordering): Ordering {
    match o
    case Less => Greater
    case Same => Same
    case Greater => Less
  }

  datatype Number = Int(i: I128) | Float(bits: U64)

  function Pow2(n: nat): (p: nat)
    ensures p > 0
  {
    if n == 0 then 1 else 2 * Pow2(n - 1)
  }

  // Floats, section 3.4 of IEEE 754. Every finite binary64 is a whole multiple of 2^-1074, so a
  // float is known by that multiple.

  const TWO_52: int := 0x10_0000_0000_0000
  const TWO_53: int := 0x20_0000_0000_0000

  /** How many units of 2^-1074 make one. */
  function Unit(): (u: nat)
    ensures u > 0
  {
    Pow2(1074)
  }

  function Exponent(bits: U64): (e: nat)
    ensures e < 0x800
  {
    bits / TWO_52 % 0x800
  }

  function Significand(bits: U64): (s: nat)
    ensures s < TWO_53
  {
    if Exponent(bits) == 0 then bits % TWO_52 else TWO_52 + bits % TWO_52
  }

  /** The power of two that the significand counts, in units. */
  function Scale(bits: U64): nat {
    if Exponent(bits) == 0 then 0 else Exponent(bits) - 1
  }

  predicate Negative(bits: U64) {
    bits >= NEGATIVE_ZERO
  }

  function WithSign(negative: bool, magnitude: int): int {
    if negative then -magnitude else magnitude
  }

  function Magnitude(i: int): nat {
    if i < 0 then -i else i
  }

  /** The float times 2^1074. An infinity comes out beyond every finite float. */
  function Units(bits: U64): int {
    WithSign(Negative(bits), Mass(bits))
  }

  function Mass(bits: U64): nat {
    Significand(bits) * Pow2(Scale(bits))
  }

  predicate NotANumber(bits: U64) {
    !Finite(bits) && bits % TWO_52 != 0
  }

  // Conversions

  /** `f as i128` for a float within range: towards zero. */
  function Truncate(bits: U64): int {
    WithSign(Negative(bits), Mass(bits) / Unit())
  }

  /** How many low bits a double drops from `n`. */
  function Excess(n: nat): nat {
    if n < TWO_53 then 0 else 1 + Excess(n / 2)
  }

  /** `n as f64` for a natural number: to 53 bits, to the nearest, ties to even. */
  function RoundNat(n: nat): nat {
    RoundTo(n, Pow2(Excess(n)))
  }

  function RoundTo(n: nat, u: nat): nat
    requires u > 0
  {
    var q, r := n / u, n % u;
    if 2 * r > u || (2 * r == u && q % 2 == 1) then (q + 1) * u else q * u
  }

  /** `i as f64`, as the integer that double is. */
  function Round(i: int): int {
    WithSign(i < 0, RoundNat(Magnitude(i)))
  }

  /** The double nearest to 1.0e38. */
  const LARGE: int := 99999999999999997748809823456034029568

  // Comparison

  /** `int_float`. */
  function IntFloat(i: I128, bits: U64): Option<Ordering> {
    if !Finite(bits) then None
    else
      var truncated := Truncate(bits);
      if -LARGE * Unit() < Units(bits) < LARGE * Unit() && Round(truncated) * Unit() == Units(bits)
      then Some(Compare(i, truncated))
      else Some(Compare(Round(i) * Unit(), Units(bits)))
  }

  /** `Number::partial_cmp`. */
  function PartialCompare(a: Number, b: Number): Option<Ordering> {
    match (a, b)
    case (Int(i), Int(j)) => Some(Compare(i, j))
    case (Float(x), Float(y)) =>
      if NotANumber(x) || NotANumber(y) then None else Some(Compare(Units(x), Units(y)))
    case (Int(i), Float(y)) => IntFloat(i, y)
    case (Float(x), Int(j)) =>
      match IntFloat(j, x)
      case Some(o) => Some(Reverse(o))
      case None => None
  }

  // Powers of two

  lemma {:induction false} PowSum(a: nat, b: nat)
    ensures Pow2(a + b) == Pow2(a) * Pow2(b)
  {
    if a > 0 {
      PowSum(a - 1, b);
      PowStep(a - 1);
      PowStep(a - 1 + b);
      hide Pow2;
      MulRegroup(2, Pow2(a - 1), Pow2(b));
      assert a - 1 + 1 == a && a - 1 + b + 1 == a + b;
    }
  }

  lemma PowStep(a: nat)
    ensures Pow2(a + 1) == 2 * Pow2(a)
  {
  }

  lemma PowMonotone(a: nat, b: nat)
    requires a <= b
    ensures Pow2(a) <= Pow2(b)
    decreases b - a
  {
    if a < b { PowMonotone(a, b - 1); }
  }

  lemma PowValues()
    ensures Pow2(52) == TWO_52 && Pow2(53) == TWO_53
    ensures Pow2(11) == 0x800 && Pow2(64) == USIZE_END && Pow2(74) == 0x400_0000_0000_0000_0000
  {
    PowOfFive();
    hide Pow2;
    PowSum(5, 5);
    PowSum(10, 1);
    PowSum(11, 10);
    PowSum(21, 21);
    PowSum(42, 10);
    PowSum(53, 11);
    PowSum(64, 10);
    PowSum(52, 1);
  }

  lemma PowOfFive()
    ensures Pow2(1) == 2 && Pow2(5) == 32
  {
    assert Pow2(2) == 4;
    assert Pow2(3) == 8;
  }

  // Multiplication, one step at a time

  lemma MulMonotone(a: int, b: int, c: nat)
    requires a <= b
    ensures a * c <= b * c
  {
  }

  lemma MulRegroup(a: nat, b: nat, c: nat)
    ensures a * (b * c) == a * b * c
  {
  }

  lemma MulCancel(a: int, b: int, c: int)
    requires c > 0
    ensures (a * c < b * c <==> a < b) && (a * c == b * c <==> a == b)
  {
    if a < b { assert a * c + c <= b * c by { MulMonotone(a + 1, b, c); assert (a + 1) * c == a * c + c; } }
    if b < a { assert b * c + c <= a * c by { MulMonotone(b + 1, a, c); assert (b + 1) * c == b * c + c; } }
  }

  lemma DivExact(a: nat, c: nat)
    requires c > 0
    ensures a * c / c == a && a * c % c == 0
  {
    var q, r := a * c / c, a * c % c;
    assert q * c + r == a * c;
    var x := a - q;
    assert x * c == a * c - q * c == r;
    if x >= 1 { MulMonotone(1, x, c); }
    if x <= -1 { MulMonotone(x, -1, c); }
  }

  lemma DivParts(n: nat, c: nat)
    requires c > 0
    ensures n / c * c <= n < n / c * c + c && n == n / c * c + n % c
  {
  }

  // Rounding

  lemma {:induction false} ExcessBounds(n: nat)
    requires n >= TWO_53
    ensures Excess(n) >= 1 && Pow2(52 + Excess(n)) <= n < Pow2(53 + Excess(n))
  {
    var half := Excess(n / 2);
    assert Excess(n) == 1 + half;
    PowStep(52 + half);
    PowStep(53 + half);
    if n < 2 * TWO_53 {
      assert half == 0;
      PowValues();
    } else {
      ExcessBounds(n / 2);
    }
    hide Pow2, Excess;
    assert 52 + half + 1 == 52 + Excess(n) && 53 + half + 1 == 53 + Excess(n);
  }

  lemma RoundToWhole(c: nat, u: nat)
    requires u > 0
    ensures RoundTo(c * u, u) == c * u
  {
    DivExact(c, u);
  }

  lemma RoundToAbove(n: nat, u: nat, c: nat)
    requires u > 0 && c * u <= n
    ensures c * u <= RoundTo(n, u)
  {
    var q := n / u;
    DivParts(n, u);
    assert (q + 1) * u == q * u + u;
    MulCancel(c, q + 1, u);
    MulMonotone(c, q, u);
  }

  lemma SmallRound(n: nat)
    requires n < TWO_53
    ensures RoundNat(n) == n
  {
    RoundToWhole(n, 1);
    assert n * 1 == n && Pow2(0) == 1;
  }

  /** A double rounds to itself. */
  lemma RoundDouble(s: nat, j: nat)
    requires s < TWO_53
    ensures RoundNat(s * Pow2(j)) == s * Pow2(j)
  {
    hide Pow2, RoundTo;
    var n := s * Pow2(j);
    var k := Excess(n);
    if n < TWO_53 {
      SmallRound(n);
    } else {
      FewerDropped(s, j);
      ShiftedProduct(s, j, k);
      hide Excess;
      RoundToWhole(s * Pow2(j - k), Pow2(k));
    }
  }

  lemma ShiftedProduct(s: nat, j: nat, k: nat)
    requires k <= j
    ensures s * Pow2(j) == s * Pow2(j - k) * Pow2(k)
  {
    hide Pow2;
    PowSum(j - k, k);
    MulRegroup(s, Pow2(j - k), Pow2(k));
  }

  lemma FewerDropped(s: nat, j: nat)
    requires s < TWO_53 && s * Pow2(j) >= TWO_53
    ensures Excess(s * Pow2(j)) <= j
  {
    hide Pow2;
    var n := s * Pow2(j);
    ExcessBounds(n);
    PowValues();
    PowSum(53, j);
    MulCancel(s, TWO_53, Pow2(j));
    if Excess(n) > j { PowMonotone(53 + j, 52 + Excess(n)); }
  }

  /** Rounding never goes below a double that the number reaches. */
  lemma RoundAbove(n: nat, s: nat, j: nat)
    requires s < TWO_53 && s * Pow2(j) <= n
    ensures s * Pow2(j) <= RoundNat(n)
  {
    hide Pow2, RoundTo;
    var k := Excess(n);
    if n < TWO_53 {
      SmallRound(n);
    } else if k <= j {
      PowSum(j - k, k);
      assert s * Pow2(j) == s * Pow2(j - k) * Pow2(k);
      RoundToAbove(n, Pow2(k), s * Pow2(j - k));
    } else {
      ExcessBounds(n);
      PowValues();
      PowSum(53, j);
      PowSum(52, k);
      MulMonotone(s, TWO_53, Pow2(j));
      PowMonotone(53 + j, 52 + k);
      RoundToAbove(n, Pow2(k), TWO_52);
    }
  }

  /** Rounding at most doubles, and leaves small numbers as they are. */
  lemma RoundBound(n: nat)
    ensures n < TWO_53 ==> RoundNat(n) == n
    ensures n >= TWO_53 ==> TWO_53 <= RoundNat(n) <= 2 * n
  {
    if n < TWO_53 {
      SmallRound(n);
    } else {
      var u := Pow2(Excess(n));
      DivParts(n, u);
      assert (n / u + 1) * u == n / u * u + u;
      ExcessBounds(n);
      PowMonotone(Excess(n), 52 + Excess(n));
      assert Pow2(1) == 2;
      RoundAbove(n, TWO_52, 1);
    }
  }

  // Exactness of the mixed comparison

  /** A float with no fraction truncates to an integer that is a double. */
  lemma TruncateWhole(bits: U64)
    requires Mass(bits) % Unit() == 0
    ensures RoundNat(Mass(bits) / Unit()) == Mass(bits) / Unit()
  {
    hide Pow2;
    var s, e, u := Significand(bits), Scale(bits), Unit();
    if e >= 1074 {
      PowSum(e - 1074, 1074);
      assert Mass(bits) == s * Pow2(e - 1074) * u;
      DivExact(s * Pow2(e - 1074), u);
      RoundDouble(s, e - 1074);
    } else {
      SmallMass(bits);
      RoundBound(Mass(bits) / u);
    }
  }

  /** A float with a fraction is below 2^52. */
  lemma SmallMass(bits: U64)
    ensures Mass(bits) % Unit() != 0 ==> Scale(bits) < 1074
    ensures Scale(bits) < 1074 ==> Mass(bits) < TWO_52 * Unit() && Mass(bits) / Unit() < TWO_52
  {
    hide Significand, Scale, Pow2;
    var s, e, u := Significand(bits), Scale(bits), Unit();
    if e >= 1074 {
      PowSum(e - 1074, 1074);
      assert Mass(bits) == s * Pow2(e - 1074) * u;
      DivExact(s * Pow2(e - 1074), u);
    } else {
      PowMonotone(e, 1073);
      PowSum(1, 1073);
      PowOfOne();
      HalfUnit(s, Pow2(e), Pow2(1073));
      DivParts(Mass(bits), u);
      MulCancel(Mass(bits) / u, TWO_52, u);
    }
  }

  lemma PowOfOne()
    ensures Pow2(1) == 2
  {
  }

  lemma HalfUnit(s: nat, p: nat, half: nat)
    requires s < TWO_53 && 0 < p <= half
    ensures s * p < TWO_52 * (2 * half)
  {
    MulMonotone(s, TWO_53 - 1, p);
    MulMonotone(p, half, TWO_53 - 1);
    assert s * p <= (TWO_53 - 1) * half;
  }

  /** The order of an integer and a float as real numbers. */
  ghost function Order(i: int, bits: U64): Ordering {
    Compare(i * Unit(), Units(bits))
  }

  /** `LARGE` is a double, so nothing at or above it rounds below it. */
  lemma LargeIsDouble(n: nat)
    ensures n >= LARGE ==> RoundNat(n) >= LARGE
    ensures n <= USIZE_END ==> RoundNat(n) < LARGE
  {
    PowValues();
    if n >= LARGE { RoundAbove(n, 5293955920339377, 74); }
    RoundBound(n);
  }

  /** Comparing the rounded integer with a float is exact when the float has a fraction. */
  lemma FractionOrder(i: int, bits: U64)
    requires Mass(bits) < TWO_52 * Unit()
    ensures Compare(Round(i) * Unit(), Units(bits)) == Order(i, bits)
  {
    var n, u := Magnitude(i), Unit();
    hide Pow2, RoundNat, Mass;
    RoundBound(n);
    if n >= TWO_53 {
      MulMonotone(TWO_53, n, u);
      MulMonotone(TWO_53, RoundNat(n), u);
      SignedProducts(i, u);
      MulMonotone(TWO_52, TWO_53, u);
    }
  }

  lemma SignedProducts(i: int, u: nat)
    ensures i * u == WithSign(i < 0, Magnitude(i) * u)
    ensures Round(i) * u == WithSign(i < 0, RoundNat(Magnitude(i)) * u)
  {
    hide RoundNat;
  }

  /** Comparing with a float of at least `LARGE` is exact unless the integer rounds onto it. */
  lemma LargeOrder(i: int, bits: U64)
    requires Mass(bits) >= LARGE * Unit()
    requires RoundNat(Magnitude(i)) < LARGE || RoundNat(Magnitude(i)) == Magnitude(i)
    ensures Compare(Round(i) * Unit(), Units(bits)) == Order(i, bits)
  {
    var n, u := Magnitude(i), Unit();
    hide Pow2, RoundNat, Mass;
    LargeIsDouble(n);
    SignedProducts(i, u);
    if RoundNat(n) < LARGE {
      MulCancel(n, LARGE, u);
      MulCancel(RoundNat(n), LARGE, u);
    }
  }

  /** An integral float that truncation can reach compares exactly. */
  lemma WholeOrder(i: int, bits: U64)
    requires Mass(bits) % Unit() == 0
    ensures Round(Truncate(bits)) * Unit() == Units(bits)
    ensures Compare(i, Truncate(bits)) == Order(i, bits)
  {
    var u := Unit();
    hide Pow2;
    TruncateWhole(bits);
    hide Mass, RoundNat;
    DivParts(Mass(bits), u);
    SignedProducts(Truncate(bits), u);
    MulCancel(i, Truncate(bits), u);
  }

  /** A float with a fraction is told apart from what it truncates to. */
  lemma FractionSeen(bits: U64)
    requires Mass(bits) % Unit() != 0
    ensures Round(Truncate(bits)) * Unit() != Units(bits)
  {
    var u := Unit();
    SmallMass(bits);
    hide Pow2, Mass;
    RoundBound(Mass(bits) / u);
    hide RoundNat;
    DivParts(Mass(bits), u);
    SignedProducts(Truncate(bits), u);
  }

  /** The mixed comparison is exact on every float that the integer does not round onto from LARGE up. */
  lemma IntFloatExact(i: I128, bits: U64)
    requires Finite(bits)
    requires RoundNat(Magnitude(i)) < LARGE || RoundNat(Magnitude(i)) == Magnitude(i)
    ensures IntFloat(i, bits) == Some(Order(i, bits))
  {
    hide Pow2, RoundNat, Mass, Unit;
    if Mass(bits) % Unit() == 0 {
      WholeOrder(i, bits);
      if Mass(bits) >= LARGE * Unit() { LargeOrder(i, bits); }
    } else {
      FractionSeen(bits);
      SmallMass(bits);
      FractionOrder(i, bits);
    }
  }

  /** The double that an integer rounds to. */
  ghost function BitsOf(negative: bool, s: nat, j: nat): U64
    requires TWO_52 <= s < TWO_53 && j < 0x300
  {
    (if negative then NEGATIVE_ZERO else 0) + (j + 1075) * TWO_52 + (s - TWO_52)
  }

  lemma BitsMean(negative: bool, s: nat, j: nat)
    requires TWO_52 <= s < TWO_53 && j < 0x300
    ensures var bits := BitsOf(negative, s, j);
            Finite(bits) && Units(bits) == WithSign(negative, s * Pow2(j)) * Unit()
  {
    hide Pow2;
    var bits := BitsOf(negative, s, j);
    assert bits % TWO_52 == s - TWO_52;
    assert bits / TWO_52 == (if negative then 0x800 else 0) + (j + 1075);
    assert Exponent(bits) == j + 1075;
    PowSum(j, 1074);
    assert Mass(bits) == s * Pow2(j) * Unit();
  }

  /** A large number rounds to a double. */
  lemma RoundGivesDouble(n: nat) returns (s: nat, j: nat)
    requires TWO_53 <= n <= Pow2(127)
    ensures TWO_52 <= s < TWO_53 && j < 0x300 && RoundNat(n) == s * Pow2(j)
  {
    var k := Excess(n);
    var u := Pow2(k);
    ExcessBounds(n);
    assert Pow2(128) == 2 * Pow2(127);
    if k > 75 { PowMonotone(128, 52 + k); }
    hide Pow2, RoundTo;
    PowValues();
    PowSum(52, k);
    PowSum(53, k);
    PowSum(1, k);
    PowOfFive();
    var q := QuotientBounds(n, u);
    if RoundNat(n) == q * u {
      s, j := q, k;
    } else if q + 1 < TWO_53 {
      s, j := q + 1, k;
    } else {
      s, j := TWO_52, k + 1;
      assert (q + 1) * u == TWO_52 * (2 * u);
    }
  }

  lemma QuotientBounds(n: nat, u: nat) returns (q: nat)
    requires u > 0 && TWO_52 * u <= n < TWO_53 * u
    ensures TWO_52 <= q < TWO_53 && (RoundTo(n, u) == q * u || RoundTo(n, u) == (q + 1) * u)
  {
    q := n / u;
    DivParts(n, u);
    assert (q + 1) * u == q * u + u;
    MulCancel(q, TWO_53, u);
    MulCancel(TWO_52, q + 1, u);
  }

  /**
   * The mixed comparison agrees with the real numbers on every finite float exactly for the integers
   * below 1.0e38 once rounded, and for those that are doubles themselves.
   */
  lemma IntFloatExactWhen(i: I128)
    ensures (forall bits: U64 :: Finite(bits) ==> IntFloat(i, bits) == Some(Order(i, bits)))
       <==> RoundNat(Magnitude(i)) < LARGE || RoundNat(Magnitude(i)) == Magnitude(i)
  {
    var n := Magnitude(i);
    if RoundNat(n) < LARGE || RoundNat(n) == n {
      forall bits: U64 | Finite(bits) ensures IntFloat(i, bits) == Some(Order(i, bits)) {
        IntFloatExact(i, bits);
      }
    } else {
      var bits := CollidingFloat(i);
    }
  }

  /** An integer that rounds to another integer of at least LARGE is taken for it. */
  lemma CollidingFloat(i: I128) returns (bits: U64)
    requires RoundNat(Magnitude(i)) >= LARGE && RoundNat(Magnitude(i)) != Magnitude(i)
    ensures Finite(bits) && IntFloat(i, bits) == Some(Same) && Order(i, bits) != Same
  {
    var n := Magnitude(i);
    PowValues();
    PowSum(64, 53);
    PowSum(117, 10);
    PowSum(5, 5);
    PowOfFive();
    SmallRound(0);
    if n < TWO_53 { SmallRound(n); }
    var s, j := RoundGivesDouble(n);
    bits := BitsOf(i < 0, s, j);
    BitsMean(i < 0, s, j);
    assert Units(bits) == Round(i) * Unit();
    RoundedIsSame(i, bits);
  }

  lemma RoundedIsSame(i: I128, bits: U64)
    requires Finite(bits) && Units(bits) == Round(i) * Unit()
    requires RoundNat(Magnitude(i)) >= LARGE && RoundNat(Magnitude(i)) != Magnitude(i)
    ensures IntFloat(i, bits) == Some(Same) && Order(i, bits) != Same
  {
    hide Pow2, RoundNat, Mass, Unit;
    MulCancel(RoundNat(Magnitude(i)), LARGE, Unit());
    MulCancel(i, Round(i), Unit());
    SignedProducts(i, Unit());
  }

  /** The first integer past LARGE rounds onto it. */
  lemma PastLargeRounds()
    ensures RoundNat(LARGE + 1) == LARGE
  {
    hide Pow2, Excess, RoundTo;
    var n, k := LARGE + 1, Excess(LARGE + 1);
    ExcessBounds(n);
    PowValues();
    PowSum(52, 74);
    PowSum(53, 74);
    if k < 74 { PowMonotone(53 + k, 126); }
    if k > 74 { PowMonotone(127, 52 + k); }
    RoundDown(5293955920339377, 0x400_0000_0000_0000_0000);
  }

  lemma RoundDown(q: nat, u: nat)
    requires u > 2
    ensures RoundTo(q * u + 1, u) == q * u
  {
    var n := q * u + 1;
    DivParts(n, u);
    MulCancel(n / u, q + 1, u);
    MulCancel(q, n / u + 1, u);
    assert (q + 1) * u == q * u + u && (n / u + 1) * u == n / u * u + u;
  }

  /** So that integer is said to equal a float that it does not. */
  lemma PastLargeCollides() returns (bits: U64)
    ensures Finite(bits) && IntFloat(LARGE + 1, bits) == Some(Same) && Order(LARGE + 1, bits) != Same
  {
    hide RoundNat;
    PastLargeRounds();
    bits := CollidingFloat(LARGE + 1);
  }

  // The order on numbers from the wire

  /** What a decoded token can hold: integers of 64 bits and sign, and finite floats. */
  predicate OnWire(n: Number) {
    match n
    case Int(i) => -USIZE_END <= i < USIZE_END
    case Float(bits) => Finite(bits)
  }

  /** A number in units of 2^-1074. */
  ghost function Value(n: Number): int {
    match n
    case Int(i) => i * Unit()
    case Float(bits) => Units(bits)
  }

  /** Numbers from the wire are ordered by value, so the comparison is a total preorder. */
  lemma PartialCompareExact(a: Number, b: Number)
    requires OnWire(a) && OnWire(b)
    ensures PartialCompare(a, b) == Some(Compare(Value(a), Value(b)))
  {
    hide Pow2, RoundNat, Mass, Unit, IntFloat;
    match (a, b)
    case (Int(i), Int(j)) => MulCancel(i, j, Unit());
    case (Float(x), Float(y)) =>
    case (Int(i), Float(y)) =>
      LargeIsDouble(Magnitude(i));
      IntFloatExact(i, y);
    case (Float(x), Int(j)) =>
      LargeIsDouble(Magnitude(j));
      IntFloatExact(j, x);
  }
}
