/** What the bits of a float are worth and how a number is rounded to one, said without exponents and scales. */
module FloatLaws {
  import opened Wrappers
  import opened IpldModel
  import opened Numbers

  const ONE: U64 := 0x3ff0_0000_0000_0000
  const INFINITY: U64 := 0x7ff0_0000_0000_0000
  const SIGN: U64 := 0x8000_0000_0000_0000

  /** From a float that is not negative to the next one up. */
  ghost function Gap(bits: U64): int
    requires bits < INFINITY
  {
    Units(bits + 1) - Units(bits)
  }

  /** The gap above a float, by its exponent field. */
  lemma GapOf(bits: U64)
    requires bits < INFINITY
    ensures var e := bits / TWO_52; Gap(bits) == Pow2(if e == 0 then 0 else e - 1)
  {
    var e, f, next := bits / TWO_52, bits % TWO_52, bits + 1;
    assert bits == e * TWO_52 + f && e < 0x7ff;
    if f + 1 < TWO_52 {
      assert next / TWO_52 == e && next % TWO_52 == f + 1;
      var p := Pow2(Scale(bits));
      MulStep(Significand(bits), p);
    } else {
      assert next == (e + 1) * TWO_52;
      assert next / TWO_52 == e + 1 && next % TWO_52 == 0;
      if e > 0 {
        PowStep(e - 1);
        MulTwice(Pow2(e - 1));
      } else {
        assert Pow2(0) == 1;
      }
    }
  }

  lemma MulStep(s: nat, p: nat)
    ensures (s + 1) * p == s * p + p
  {
  }

  lemma MulTwice(p: nat)
    ensures TWO_52 * (2 * p) - (TWO_53 - 1) * p == p
  {
  }

  lemma Smallest()
    ensures Units(0) == 0 && Units(1) == 1 && Gap(0) == 1 && Gap(TWO_52) == 1
  {
    GapOf(0);
    GapOf(TWO_52);
    assert Pow2(0) == 1;
    assert Significand(0) == 0;
  }

  /** Floats of one exponent are equally far apart; the subnormals are as far apart as the smallest normals. */
  lemma GapIsConstant(a: U64, b: U64)
    requires a < INFINITY && b < INFINITY
    requires a / TWO_52 == b / TWO_52 || (a < 2 * TWO_52 && b < 2 * TWO_52)
    ensures Gap(a) == Gap(b)
  {
    GapOf(a);
    GapOf(b);
  }

  /** With each further exponent they are twice as far apart. */
  lemma GapDoubles(a: U64, b: U64)
    requires TWO_52 <= a && b < INFINITY && b / TWO_52 == a / TWO_52 + 1
    ensures Gap(b) == 2 * Gap(a)
  {
    GapOf(a);
    GapOf(b);
    PowStep(a / TWO_52 - 1);
  }

  /** So the order of floats that are not negative is the order of their bits. */
  lemma {:induction false} OrderOfBits(a: U64, b: U64)
    requires a < b <= INFINITY
    ensures Units(a) < Units(b)
    decreases b - a
  {
    GapOf(a);
    hide Pow2, Units;
    if a + 1 < b { OrderOfBits(a + 1, b); }
  }

  lemma SignNegates(bits: U64)
    requires bits < SIGN
    ensures Units(SIGN + bits) == -Units(bits)
  {
    var other := SIGN + bits;
    assert other % TWO_52 == bits % TWO_52 && other / TWO_52 == 0x800 + bits / TWO_52;
    assert Exponent(other) == Exponent(bits);
    hide Pow2;
  }

  lemma OneIsOne()
    ensures Units(ONE) == Unit() && Units(SIGN + ONE) == -Units(ONE)
  {
    hide Pow2;
    NormalFloat(1023, TWO_52);
    SignNegates(ONE);
    PowValues();
    PowSum(52, 1022);
  }

  /** The float with exponent field `e` and significand `s`. */
  lemma NormalFloat(e: nat, s: nat)
    requires 0 < e < 0x7ff && TWO_52 <= s < TWO_53
    ensures var bits := e * TWO_52 + (s - TWO_52);
            0 <= bits < SIGN && Finite(bits) && Units(bits) == s * Pow2(e - 1)
  {
    hide Pow2;
    var bits: U64 := e * TWO_52 + (s - TWO_52);
    assert bits / TWO_52 == e && bits % TWO_52 == s - TWO_52;
  }

  /** Past the sign, finite floats come before infinity and the other patterns after it. */
  lemma FiniteBelowInfinity(bits: U64)
    ensures Finite(bits) <==> bits % SIGN < INFINITY
    ensures NotANumber(bits) <==> bits % SIGN > INFINITY
  {
    var rest := bits % SIGN;
    assert rest % TWO_52 == bits % TWO_52;
    assert rest / TWO_52 == bits / TWO_52 % 0x800;
  }

  /** Only what is not a number is not compared, and an integer never with an infinity. */
  lemma ComparedExactlyWhen(a: Number, b: Number)
    ensures PartialCompare(a, b).None? <==>
            || (a.Float? && NotANumber(a.bits)) || (b.Float? && NotANumber(b.bits))
            || (a.Int? && b.Float? && !Finite(b.bits)) || (a.Float? && b.Int? && !Finite(a.bits))
  {
    hide Pow2, RoundNat, Mass;
  }

  // Small integers are floats

  lemma {:induction false} Shifted(n: nat) returns (k: nat)
    requires 0 < n < TWO_53
    ensures k <= 52 && TWO_52 <= n * Pow2(k) < TWO_53
  {
    PowValues();
    k := 0;
    assert Pow2(0) == 1;
    hide Pow2;
    while n * Pow2(k) < TWO_52
      invariant k <= 52 && n * Pow2(k) < TWO_53
      decreases 52 - k
    {
      if k == 52 { MulMonotone(1, n, Pow2(52)); }
      PowStep(k);
      MulRegroup(2, n, Pow2(k));
      MulRegroup(n, 2, Pow2(k));
      k := k + 1;
    }
  }

  lemma SmallNaturalIsFloat(n: nat) returns (bits: U64)
    requires n <= TWO_53
    ensures bits < SIGN && Finite(bits) && Units(bits) == n * Unit()
  {
    hide Pow2, Unit;
    if n == 0 {
      bits := 0;
      Smallest();
    } else {
      var s, e := NormalForm(n);
      NormalFloat(e, s);
      bits := e * TWO_52 + (s - TWO_52);
    }
  }

  /** A small integer is a float. */
  lemma SmallIntegerIsFloat(i: int) returns (bits: U64)
    requires -TWO_53 <= i <= TWO_53
    ensures Finite(bits) && Units(bits) == i * Unit()
  {
    hide Units, Unit;
    var positive := SmallNaturalIsFloat(Magnitude(i));
    if i < 0 {
      bits := SIGN + positive;
      MulNegate(-i, Unit());
      SignNegates(positive);
      FiniteBelowInfinity(positive);
      FiniteBelowInfinity(bits);
    } else {
      bits := positive;
    }
  }

  lemma MulNegate(n: nat, u: nat)
    ensures -(n as int) * u == -(n * u)
  {
  }

  lemma NormalForm(n: nat) returns (s: nat, e: nat)
    requires 0 < n <= TWO_53
    ensures 0 < e < 0x7ff && TWO_52 <= s < TWO_53 && s * Pow2(e - 1) == n * Unit()
  {
    hide Pow2;
    if n == TWO_53 {
      s, e := TWO_52, 1076;
      PowStep(1074);
    } else {
      var k := Shifted(n);
      s, e := n * Pow2(k), 1075 - k;
      PowSum(k, 1074 - k);
      MulRegroup(n, Pow2(k), Pow2(1074 - k));
    }
  }

  /** A float that is a small integer compares with every integer as that one does. */
  lemma SmallFloatCompares(i: int, bits: U64, j: I128)
    requires -TWO_53 <= i <= TWO_53 && Finite(bits) && Units(bits) == i * Unit()
    ensures IntFloat(j, bits) == Some(Compare(j, i))
  {
    var u := Unit();
    hide Pow2, Unit;
    assert Mass(bits) == Magnitude(i) * u by { hide Mass; }
    DivExact(Magnitude(i), u);
    WholeOrder(j, bits);
    MulCancel(Magnitude(i), LARGE, u);
    MulCancel(j, i, u);
    hide Mass, Round, Truncate;
    assert -LARGE * u < Units(bits) < LARGE * u;
  }

  /** So 1.0 is 1 and no other integer. */
  lemma OneCompares(j: I128)
    ensures IntFloat(j, ONE) == Some(Compare(j, 1))
  {
    OneIsOne();
    hide Units, Unit, IntFloat;
    SmallFloatCompares(1, ONE, j);
  }

  // Rounding

  /** A double no larger than `n` is no larger than the last multiple kept of it. */
  lemma DoubleBelow(n: nat, s: nat, j: nat)
    requires n >= TWO_53 && s < TWO_53 && s * Pow2(j) <= n
    ensures s * Pow2(j) <= n / Pow2(Excess(n)) * Pow2(Excess(n))
  {
    hide Pow2, Excess;
    var k := Excess(n);
    var u := Pow2(k);
    DivParts(n, u);
    var q := n / u;
    MulStep(q, u);
    if k <= j {
      ShiftedProduct(s, j, k);
      MulCancel(s * Pow2(j - k), q + 1, u);
      MulMonotone(s * Pow2(j - k), q, u);
    } else {
      ExcessBounds(n);
      PowValues();
      PowSum(53, j);
      PowSum(52, k);
      MulMonotone(s, TWO_53, Pow2(j));
      PowMonotone(53 + j, 52 + k);
      MulCancel(TWO_52, q + 1, u);
      MulMonotone(TWO_52, q, u);
    }
  }

  lemma DoubleAbove(n: nat, s: nat, j: nat)
    requires n >= TWO_53 && s < TWO_53 && s * Pow2(j) > n
    ensures s * Pow2(j) >= (n / Pow2(Excess(n)) + 1) * Pow2(Excess(n))
  {
    hide Pow2, Excess;
    var k := Excess(n);
    var u := Pow2(k);
    DivParts(n, u);
    var q := n / u;
    if k <= j {
      ShiftedProduct(s, j, k);
      MulCancel(q, s * Pow2(j - k), u);
      MulMonotone(q + 1, s * Pow2(j - k), u);
    } else {
      ExcessBounds(n);
      PowValues();
      PowSum(53, j);
      PowSum(52, k);
      MulMonotone(s, TWO_53, Pow2(j));
      PowMonotone(53 + j, 52 + k);
    }
  }

  /** No double, that is no number of 53 bits times a power of two, is nearer than the one rounded to. */
  lemma RoundsToNearest(n: nat, s: nat, j: nat)
    requires s < TWO_53
    ensures Magnitude(RoundNat(n) - n) <= Magnitude(s * Pow2(j) - n)
  {
    if n < TWO_53 {
      SmallRound(n);
      hide Pow2, RoundNat;
    } else {
      hide Pow2, Excess;
      var u := Pow2(Excess(n));
      if s * Pow2(j) <= n { DoubleBelow(n, s, j); } else { DoubleAbove(n, s, j); }
      var q := Rounded(n, u);
      hide RoundTo;
    }
  }

  /** Rounding gives a neighbour that is no further than half of what they are apart. */
  lemma Rounded(n: nat, u: nat) returns (q: nat)
    requires u > 0
    ensures q == n / u && q * u <= n < q * u + u && (q + 1) * u == q * u + u
    ensures RoundTo(n, u) ==
            if 2 * (n - q * u) > u || (2 * (n - q * u) == u && q % 2 == 1) then q * u + u else q * u
  {
    q := n / u;
    var r := n % u;
    DivParts(n, u);
    MulStep(q, u);
    RoundToIs(n, u, q, r);
    hide RoundTo;
  }

  lemma RoundToIs(n: nat, u: nat, q: nat, r: nat)
    requires u > 0 && q == n / u && r == n % u
    ensures RoundTo(n, u) == if 2 * r > u || (2 * r == u && q % 2 == 1) then (q + 1) * u else q * u
  {
  }

  /** What lies midway between two doubles goes to the one whose last bit is zero. */
  lemma TiesToEven(n: nat, q: nat)
    requires 2 * n == (2 * q + 1) * Pow2(Excess(n))
    ensures RoundNat(n) == (if q % 2 == 0 then q else q + 1) * Pow2(Excess(n))
  {
    hide Pow2, Excess;
    var u := Pow2(Excess(n));
    Midway(n, q, u);
  }

  lemma Midway(n: nat, q: nat, u: nat)
    requires u > 0 && 2 * n == (2 * q + 1) * u
    ensures RoundTo(n, u) == (if q % 2 == 0 then q else q + 1) * u
  {
    OddTimes(q, u);
    MulStep(q, u);
    var p := Rounded(n, u);
    hide RoundTo;
    MulCancel(q, p + 1, u);
    MulCancel(p, q + 1, u);
    assert p == q;
    if q % 2 == 0 {
      assert RoundTo(n, u) == q * u;
    } else {
      assert RoundTo(n, u) == (q + 1) * u;
    }
  }

  lemma OddTimes(q: nat, u: nat)
    ensures (2 * q + 1) * u == 2 * (q * u) + u
  {
    MulRegroup(2, q, u);
    MulStep(2 * q, u);
  }

  /** `LARGE` is the double nearest to ten to the 38th. */
  lemma LargeIsNearest()
    ensures LARGE == 5293955920339377 * Pow2(74) && TWO_52 <= 5293955920339377 < TWO_53
    ensures 2 * Magnitude(LARGE - 100_000_000_000_000_000_000_000_000_000_000_000_000) < Pow2(74)
  {
    PowValues();
    hide Pow2;
  }
}
