/** Finite binary32 numbers with round-to-nearest-even, and the rounding kernels that
    are built from additions of 2^23 when the processor has no rounding instruction. */
module Binary32 {
  const TWO23 := 0x80_0000
  const TWO24 := 0x100_0000
  const MIN_EXP := -149
  const MAX_EXP := 104

  /** A sign, an integral significand and the exponent of its unit. */
  datatype Float = Float(neg: bool, sig: nat, exp: int) {
    /** The canonical finite encodings: normal significands have 24 bits. */
    predicate Finite() {
      && sig < TWO24
      && MIN_EXP <= exp <= MAX_EXP
      && (TWO23 <= sig || exp == MIN_EXP)
    }

    ghost function Magnitude(): real {
      Ldexp(sig as real, exp)
    }

    ghost function Val(): real {
      if neg then -Magnitude() else Magnitude()
    }
  }

  // ---- scaling by powers of two -------------------------------------------------

  /** x * 2^e. */
  ghost function Ldexp(x: real, e: int): real
    decreases if e < 0 then -e else e
  {
    if e == 0 then x else if e > 0 then 2.0 * Ldexp(x, e - 1) else Ldexp(x, e + 1) / 2.0
  }

  lemma LdexpStep(x: real, e: int)
    ensures Ldexp(x, e + 1) == 2.0 * Ldexp(x, e)
  {
  }

  lemma {:induction false} LdexpCompose(x: real, a: int, b: int)
    ensures Ldexp(Ldexp(x, a), b) == Ldexp(x, a + b)
    decreases if b < 0 then -b else b
  {
    if b > 0 {
      LdexpCompose(x, a, b - 1);
      LdexpStep(x, a + b - 1);
    } else if b < 0 {
      LdexpCompose(x, a, b + 1);
      LdexpStep(x, a + b);
    }
  }

  lemma {:induction false} LdexpOrder(x: real, y: real, e: int)
    ensures x <= y <==> Ldexp(x, e) <= Ldexp(y, e)
    decreases if e < 0 then -e else e
  {
    if e > 0 {
      LdexpOrder(x, y, e - 1);
    } else if e < 0 {
      LdexpOrder(x, y, e + 1);
    }
  }

  lemma {:induction false} LdexpLinear(x: real, y: real, e: int)
    ensures Ldexp(x - y, e) == Ldexp(x, e) - Ldexp(y, e)
    ensures Ldexp(2.0 * x, e) == 2.0 * Ldexp(x, e)
    ensures Ldexp(0.0, e) == 0.0
    decreases if e < 0 then -e else e
  {
    if e > 0 {
      LdexpLinear(x, y, e - 1);
    } else if e < 0 {
      LdexpLinear(x, y, e + 1);
    }
  }

  ghost function IntScale(n: int, k: nat): int {
    if k == 0 then n else 2 * IntScale(n, k - 1)
  }

  lemma {:induction false} LdexpOfInt(n: int, k: nat)
    ensures Ldexp(n as real, k) == IntScale(n, k) as real
  {
    if k > 0 {
      LdexpOfInt(n, k - 1);
    }
  }

  /** For a nonnegative argument, larger exponents give larger values. */
  lemma {:induction false} LdexpGrows(x: real, a: int, b: int)
    requires x >= 0.0 && a <= b
    ensures 0.0 <= Ldexp(x, a) <= Ldexp(x, b)
    decreases b - a
  {
    LdexpLinear(x, x, a);
    LdexpOrder(0.0, x, a);
    if a < b {
      LdexpStep(x, a);
      LdexpGrows(x, a + 1, b);
    }
  }

  // ---- the range ------------------------------------------------------------------

  const LARGEST := Float(false, 0xFF_FFFF, 104)
  const SMALLEST := Float(false, 1, -149)

  /** The largest number is FLT_MAX, and the smallest positive one is 2^-149. */
  lemma Extremes(f: Float)
    requires f.Finite()
    ensures LARGEST.Finite() && LARGEST.Val() == 340282346638528859811704183484516925440.0
    ensures SMALLEST.Finite() && Ldexp(SMALLEST.Val(), 149) == 1.0
    ensures -LARGEST.Val() <= f.Val() <= LARGEST.Val()
    ensures f.Val() == 0.0 || f.Val() >= SMALLEST.Val() || f.Val() <= -SMALLEST.Val()
  {
    LdexpOfInt(0xFF_FFFF, 104);
    ScaledLargest();
    LdexpCompose(1.0, -149, 149);
    LdexpGrows(f.sig as real, f.exp, 104);
    LdexpOrder(f.sig as real, 0xFF_FFFF as real, 104);
    LdexpGrows(f.sig as real, -149, f.exp);
    LdexpOrder(1.0, f.sig as real, -149);
    LdexpLinear(0.0, 0.0, f.exp);
    hide Ldexp;
  }

  lemma ScaledLargest()
    ensures IntScale(0xFF_FFFF, 104) == 340282346638528859811704183484516925440
  {
    assert IntScale(1, 0) == 1 && IntScale(1, 6) == 64 && IntScale(1, 7) == 128 && IntScale(0xFF_FFFF, 0) == 0xFF_FFFF;
    hide IntScale;
    ScaleSplits(1, 6, 7);
    ScaleSplits(1, 13, 13);
    ScaleSplits(1, 26, 26);
    ScaleSplits(1, 52, 52);
    ScaleSplits(0xFF_FFFF, 0, 104);
  }

  lemma {:induction false} ScaleSplits(n: int, a: nat, b: nat)
    ensures IntScale(n, a + b) == IntScale(n, a) * IntScale(1, b)
  {
    if b > 0 {
      ScaleSplits(n, a, b - 1);
      assert IntScale(n, a + b) == 2 * (IntScale(n, a) * IntScale(1, b - 1));
      assert IntScale(1, b) == 2 * IntScale(1, b - 1);
    }
  }

  // ---- rounding of reals to integers ----------------------------------------------

  /** Nearest integer, ties to even. */
  function Rint(y: real): int {
    var f := y.Floor;
    var d := y - f as real;
    if d < 0.5 then f
    else if d > 0.5 then f + 1
    else if f % 2 == 0 then f else f + 1
  }

  function Ceil(y: real): int {
    -((-y).Floor)
  }

  /** Toward zero. */
  function Trunc(y: real): int {
    if y < 0.0 then Ceil(y) else y.Floor
  }

  ghost function Distance(a: real, b: real): real {
    if a < b then b - a else a - b
  }

  lemma RintIsNearest(y: real, n: int)
    ensures Distance(y, Rint(y) as real) <= Distance(y, n as real)
    ensures Distance(y, Rint(y) as real) == Distance(y, n as real) && n != Rint(y) ==> Rint(y) % 2 == 0
  {
    if n <= y.Floor {
      assert n as real <= y.Floor as real <= y;
    } else {
      assert n as real >= (y.Floor + 1) as real > y;
    }
  }

  lemma RintBounds(y: real, lo: int, hi: int)
    ensures lo as real <= y ==> lo <= Rint(y)
    ensures y <= hi as real ==> Rint(y) <= hi
  {
  }

  lemma RintShift(y: real, n: int)
    requires n % 2 == 0
    ensures Rint(y + n as real) == Rint(y) + n
  {
    assert (y + n as real).Floor == y.Floor + n;
  }

  lemma RintOdd(y: real)
    ensures Rint(-y) == -Rint(y)
  {
    if y == y.Floor as real {
      assert (-y).Floor == -y.Floor;
    } else {
      assert (-y).Floor == -y.Floor - 1;
    }
  }

  lemma RoundingsOfInt(n: int)
    ensures Rint(n as real) == Ceil(n as real) == Trunc(n as real) == (n as real).Floor == n
  {
    assert (-(n as real)).Floor == -n;
  }

  // ---- rounding of reals to binary32 -------------------------------------------------

  /** The unit exponent at which `a` needs at most 24 significant bits. */
  ghost function Quantum(a: real, e: int): (q: int)
    requires MIN_EXP <= e <= MAX_EXP
    ensures e <= q <= MAX_EXP
    ensures a < Ldexp(16777216.0, q) || q == MAX_EXP
    ensures q > e ==> Ldexp(8388608.0, q) <= a
    decreases MAX_EXP - e
  {
    if e == MAX_EXP || a < Ldexp(16777216.0, e) then e
    else
      HalfSignificand(e);
      Quantum(a, e + 1)
  }

  lemma HalfSignificand(e: int)
    ensures Ldexp(8388608.0, e + 1) == Ldexp(16777216.0, e)
  {
    LdexpStep(8388608.0, e);
    LdexpLinear(8388608.0, 0.0, e);
  }

  /** At most the largest finite number. */
  ghost predicate InRange(x: real) {
    -Ldexp(16777215.0, MAX_EXP) <= x <= Ldexp(16777215.0, MAX_EXP)
  }

  ghost function AbsReal(x: real): real {
    if x < 0.0 then -x else x
  }

  /** The magnitude in units of its own last place. */
  ghost function Scaled(a: real): real {
    Ldexp(a, -Quantum(a, MIN_EXP))
  }

  lemma ScaledMeaning(a: real)
    requires InRange(a) && a >= 0.0
    ensures var e := Quantum(a, MIN_EXP); var y := Scaled(a);
      && a == Ldexp(y, e)
      && 0.0 <= y < 16777216.0
      && (e > MIN_EXP ==> 8388608.0 <= y)
      && (e == MAX_EXP ==> y <= 16777215.0)
  {
    var e := Quantum(a, MIN_EXP);
    var y := Scaled(a);
    LdexpCompose(a, -e, e);
    LdexpLinear(0.0, 0.0, e);
    LdexpOrder(0.0, y, e);
    LdexpOrder(8388608.0, y, e);
    LdexpOrder(16777216.0, y, e);
    LdexpOrder(y, 16777215.0, e);
  }

  /** The rounded significand; it may reach 2^24, which the next unit writes as 2^23. */
  ghost function Significand(a: real): (m: nat)
    requires InRange(a) && a >= 0.0
    ensures m <= TWO24
    ensures Quantum(a, MIN_EXP) > MIN_EXP ==> TWO23 <= m
    ensures Quantum(a, MIN_EXP) == MAX_EXP ==> m < TWO24
  {
    ScaledMeaning(a);
    RintBounds(Scaled(a), 0, TWO24);
    RintBounds(Scaled(a), TWO23, TWO24 - 1);
    Rint(Scaled(a))
  }

  /** Canonical form of m units of exponent e. */
  ghost function Pack(neg: bool, m: nat, e: int): (r: Float)
    requires MIN_EXP <= e <= MAX_EXP && m <= TWO24
    requires (e > MIN_EXP ==> TWO23 <= m) && (e == MAX_EXP ==> m < TWO24)
    ensures r.Finite() && r.neg == neg
    ensures r.Magnitude() == Ldexp(m as real, e)
    ensures r.sig % 2 == 0 <==> m % 2 == 0
  {
    if m == TWO24 then
      HalfSignificand(e);
      Float(neg, TWO23, e + 1)
    else Float(neg, m, e)
  }

  /** Rounding to nearest even, within the finite range. */
  ghost function Round(x: real): (r: Float)
    requires InRange(x)
    ensures r.Finite() && r.neg == (x < 0.0)
    ensures r.Magnitude() == Ldexp(Rint(Scaled(AbsReal(x))) as real, Quantum(AbsReal(x), MIN_EXP))
    ensures r.sig % 2 == 0 <==> Rint(Scaled(AbsReal(x))) % 2 == 0
  {
    var a := AbsReal(x);
    Pack(x < 0.0, Significand(a), Quantum(a, MIN_EXP))
  }

  // ---- the rounding is the IEEE one ------------------------------------------------------

  lemma ScaledDistance(y: real, n: int, e: int)
    ensures Distance(Ldexp(y, e), Ldexp(Rint(y) as real, e)) <= Distance(Ldexp(y, e), Ldexp(n as real, e))
    ensures n != Rint(y) && Distance(Ldexp(y, e), Ldexp(Rint(y) as real, e)) == Distance(Ldexp(y, e), Ldexp(n as real, e))
      ==> Rint(y) % 2 == 0
  {
    var m := Rint(y) as real;
    RintIsNearest(y, n);
    DistanceScales(y, m, e);
    DistanceScales(y, n as real, e);
    LdexpOrder(Distance(y, m), Distance(y, n as real), e);
    LdexpOrder(Distance(y, n as real), Distance(y, m), e);
  }

  lemma DistanceScales(a: real, b: real, e: int)
    ensures Distance(Ldexp(a, e), Ldexp(b, e)) == Ldexp(Distance(a, b), e)
  {
    LdexpOrder(a, b, e);
    LdexpOrder(b, a, e);
    LdexpLinear(a, b, e);
    LdexpLinear(b, a, e);
  }

  /** A finite number is an integral multiple of any smaller unit. */
  lemma MultipleOfUnit(g: Float, e: int)
    requires g.Finite() && e <= g.exp
    ensures g.Magnitude() == Ldexp(IntScale(g.sig, g.exp - e) as real, e)
  {
    LdexpOfInt(g.sig, g.exp - e);
    LdexpCompose(g.sig as real, g.exp - e, e);
  }

  /** A number with a smaller unit lies below the binade of the larger unit. */
  lemma BelowBinade(g: Float, e: int)
    requires g.Finite() && g.exp < e
    ensures g.Magnitude() < Ldexp(8388608.0, e)
  {
    LdexpOrder(16777216.0, g.sig as real, g.exp);
    LdexpGrows(16777216.0, g.exp, e - 1);
    HalfSignificand(e - 1);
  }

  lemma NearestMagnitude(a: real, g: Float)
    requires InRange(a) && a >= 0.0 && g.Finite()
    ensures var r := Round(a);
      && Distance(a, r.Magnitude()) <= Distance(a, g.Magnitude())
      && (Distance(a, r.Magnitude()) == Distance(a, g.Magnitude()) && g.Magnitude() != r.Magnitude() ==> r.sig % 2 == 0)
  {
    ScaledMeaning(a);
    var e := Quantum(a, MIN_EXP);
    if g.exp >= e {
      MultipleOfUnit(g, e);
      ScaledDistance(Scaled(a), IntScale(g.sig, g.exp - e), e);
    } else {
      BelowBinade(g, e);
      ScaledDistance(Scaled(a), TWO23, e);
    }
  }

  lemma MagnitudeIsNonnegative(g: Float)
    ensures g.Magnitude() >= 0.0
  {
    LdexpGrows(g.sig as real, g.exp, g.exp);
  }

  /** The rounding above is roundTiesToEven (section 4.3.1 of IEEE 754-2019): no finite number
      is nearer, and among two equally near ones the one with an even significand is taken. */
  lemma RoundIsNearest(x: real, g: Float)
    requires InRange(x) && g.Finite()
    ensures Distance(x, Round(x).Val()) <= Distance(x, g.Val())
    ensures Distance(x, Round(x).Val()) == Distance(x, g.Val()) && g.Val() != Round(x).Val() ==> Round(x).sig % 2 == 0
  {
    hide Rint, Quantum, Ldexp;
    NearestMagnitude(AbsReal(x), g);
    MagnitudeIsNonnegative(g);
    MagnitudeIsNonnegative(Round(x));
    if x == 0.0 {
      NearestMagnitude(0.0, Float(false, 0, MIN_EXP));
      LdexpLinear(0.0, 0.0, MIN_EXP);
    }
  }

  /** Representable numbers are kept. */
  lemma RoundKeeps(g: Float)
    requires g.Finite()
    ensures InRange(g.Val()) && Round(g.Val()).Val() == g.Val()
  {
    MagnitudeIsNonnegative(g);
    LdexpOrder(g.sig as real, 16777215.0, g.exp);
    LdexpGrows(16777215.0, g.exp, MAX_EXP);
    RoundIsNearest(g.Val(), g);
  }

  // ---- sums near 2^23 ------------------------------------------------------------------------

  /** Below 2^24 the unit is at most one, and between 2^23 and 2^24 it is exactly one. */
  lemma {:induction false} UnitBelow24(a: real, e: int)
    requires MIN_EXP <= e <= 0 && 0.0 <= a < 16777216.0
    ensures Quantum(a, e) <= 0
    ensures a >= 8388608.0 ==> Quantum(a, e) == 0
    decreases -e
  {
    if e < 0 {
      if a >= Ldexp(16777216.0, e) {
        UnitBelow24(a, e + 1);
      } else {
        LdexpGrows(16777216.0, e, -1);
        assert Ldexp(16777216.0, -1) == 8388608.0;
      }
    }
  }

  lemma SmallInRange(x: real)
    requires -16777216.0 <= x <= 16777216.0
    ensures InRange(x)
  {
    LdexpGrows(16777215.0, 1, MAX_EXP);
    assert Ldexp(16777215.0, 1) == 33554430.0;
  }

  /** Between 2^23 and 2^24 rounding to binary32 is rounding to an integer. */
  lemma RoundsToInteger(x: real)
    requires 8388608.0 <= AbsReal(x) < 16777216.0
    ensures InRange(x) && Round(x).Val() == Rint(x) as real
  {
    SmallInRange(x);
    UnitBelow24(AbsReal(x), MIN_EXP);
    RintOdd(AbsReal(x));
  }

  /** Integers below 2^24 in magnitude are representable. */
  lemma RoundKeepsInt(n: int)
    requires -TWO24 < n < TWO24
    ensures InRange(n as real) && Round(n as real).Val() == n as real
  {
    hide Rint, Quantum, Round, IntScale;
    SmallInRange(n as real);
    var k := if n < 0 then -n else n;
    UnitBelow24(k as real, MIN_EXP);
    var e := Quantum(k as real, MIN_EXP);
    LdexpOfInt(k, -e);
    RoundingsOfInt(IntScale(k, -e));
    LdexpCompose(k as real, -e, e);
  }

  // ---- the fallback kernels ----------------------------------------------------------------------

  /** Additions are only modelled where they stay in the finite range. */
  ghost function Add(a: Float, b: Float): (r: Float)
    requires InRange(a.Val() + b.Val())
    ensures r.Finite()
  {
    Round(a.Val() + b.Val())
  }

  ghost function Sub(a: Float, b: Float): (r: Float)
    requires InRange(a.Val() - b.Val())
    ensures r.Finite()
  {
    Round(a.Val() - b.Val())
  }

  const MAGIC := Float(false, TWO23, 0)
  const ONE := Float(false, TWO23, -23)
  const ZERO := Float(false, 0, MIN_EXP)

  function Abs(v: Float): Float {
    v.(neg := false)
  }

  /** Or-ing the sign bit of v into a positive number. */
  function WithSignOf(f: Float, v: Float): Float {
    f.(neg := v.neg)
  }

  lemma MagicValue(v: Float)
    ensures MAGIC.Finite() && MAGIC.Magnitude() == 8388608.0
    ensures WithSignOf(MAGIC, v).Val() == if v.neg then -8388608.0 else 8388608.0
    ensures Abs(v).Val() == v.Magnitude() >= 0.0
  {
    MagnitudeIsNonnegative(v);
  }

  lemma UnitValue(v: Float)
    ensures ONE.Val() == 1.0 && ZERO.Val() == 0.0
    ensures WithSignOf(ONE, v).Val() == if v.neg then -1.0 else 1.0
  {
    LdexpLinear(0.0, 0.0, MIN_EXP);
    LdexpOfInt(1, 23);
    IntScale23();
    LdexpCompose(1.0, 23, -23);
  }

  lemma IntScale23()
    ensures IntScale(1, 23) == TWO23
  {
    assert IntScale(1, 4) == 16;
    assert IntScale(1, 8) == 256;
    assert IntScale(1, 12) == 4096;
    assert IntScale(1, 16) == 65536;
    assert IntScale(1, 20) == 1048576;
  }

  /** Finite numbers of magnitude 2^23 and above are integers. */
  lemma LargeIsInteger(v: Float)
    requires v.Finite() && v.Magnitude() >= 8388608.0
    ensures Rint(v.Val()) as real == v.Val()
  {
    if v.exp < 0 {
      BelowBinade(v, 0);
    }
    LdexpOfInt(v.sig, v.exp);
    RoundingsOfInt(IntScale(v.sig, v.exp));
    RoundingsOfInt(-IntScale(v.sig, v.exp));
  }

  lemma SmallSums(v: Float)
    requires v.Finite() && v.Magnitude() < 8388608.0
    ensures var magic := WithSignOf(MAGIC, v); var n := Rint(v.Val());
      && -TWO23 <= n <= TWO23
      && InRange(v.Val() + magic.Val())
      && Add(v, magic).Val() == n as real + magic.Val()
      && InRange(Add(v, magic).Val() - magic.Val())
      && Sub(Add(v, magic), magic).Val() == n as real
  {
    hide Rint, Ldexp, Quantum, Round;
    MagicValue(v);
    var magic := WithSignOf(MAGIC, v);
    RoundsToInteger(v.Val() + magic.Val());
    RintShift(v.Val(), if v.neg then -TWO23 else TWO23);
    RintBounds(v.Val(), -TWO23, TWO23);
    RoundKeepsInt(Rint(v.Val()));
  }

  /** Add and subtract signed 2^23, keep large inputs. */
  ghost function RintPs(v: Float): (r: Float)
    requires v.Finite()
    ensures r.Finite()
  {
    var magic := WithSignOf(MAGIC, v);
    if Abs(v).Val() < MAGIC.Val() then
      MagicValue(v);
      SmallSums(v);
      Sub(Add(v, magic), magic)
    else v
  }

  /** The fallback is roundToIntegralTiesToEven (section 5.9 of IEEE 754-2019) up to the sign of zero. */
  lemma RintPsIsExact(v: Float)
    requires v.Finite()
    ensures RintPs(v).Val() == Rint(v.Val()) as real
    ensures RintPs(v).Val() != v.Val() ==> v.Magnitude() < 8388608.0
  {
    MagicValue(v);
    if v.Magnitude() < 8388608.0 {
      SmallSums(v);
    } else {
      LargeIsInteger(v);
    }
  }

  /** What the masked correction of a kernel can be. */
  ghost predicate IsCorrection(v: Float, unit: Float)
    requires v.Finite()
  {
    || unit.Val() == 0.0
    || (RintPs(v).Val() != v.Val() && (unit.Val() == 1.0 || unit.Val() == -1.0))
  }

  lemma RoundSumOfInts(a: real, b: real, n: int, u: int)
    requires a == n as real && b == u as real
    requires -TWO24 < n + u < TWO24
    ensures InRange(a + b) && Round(a + b).Val() == a + b
  {
    hide Rint, Ldexp, Quantum, Round;
    RoundKeepsInt(n + u);
    assert a + b == (n + u) as real;
  }

  /** One-unit corrections are exact. */
  lemma CorrectionIsExact(v: Float, r: Float, unit: Float)
    requires v.Finite() && r == RintPs(v) && IsCorrection(v, unit)
    ensures InRange(r.Val() + unit.Val()) && Add(r, unit).Val() == r.Val() + unit.Val()
    ensures InRange(r.Val() - unit.Val()) && Sub(r, unit).Val() == r.Val() - unit.Val()
  {
    hide Rint, Ldexp, Quantum, Round, RintPs;
    if unit.Val() == 0.0 {
      RoundKeeps(r);
    } else {
      RintPsIsExact(v);
      MagnitudeIsNonnegative(v);
      var n, u := Rint(v.Val()), if unit.Val() == 1.0 then 1 else -1;
      RintBounds(v.Val(), -TWO23, TWO23);
      RoundSumOfInts(r.Val(), unit.Val(), n, u);
      RoundSumOfInts(r.Val(), -unit.Val(), n, -u);
    }
  }

  /** The masked unit that a kernel adds or subtracts. */
  function Masked(mask: bool, unit: Float): Float {
    if mask then unit else ZERO
  }

  lemma MaskedIsCorrection(v: Float, mask: bool, unit: Float)
    requires v.Finite() && (mask ==> RintPs(v).Val() != v.Val())
    requires unit == ONE || unit == WithSignOf(ONE, v)
    ensures IsCorrection(v, Masked(mask, unit))
    ensures Masked(mask, unit).Val() == if !mask then 0.0 else if unit.neg then -1.0 else 1.0
  {
    UnitValue(v);
  }

  ghost predicate CeilMask(v: Float)
    requires v.Finite()
  {
    RintPs(v).Val() < v.Val()
  }

  ghost predicate FloorMask(v: Float)
    requires v.Finite()
  {
    RintPs(v).Val() > v.Val()
  }

  ghost predicate TruncMask(v: Float)
    requires v.Finite()
  {
    Abs(RintPs(v)).Val() > Abs(v).Val()
  }

  lemma TruncMaskMeansDifferent(v: Float)
    requires v.Finite()
    ensures TruncMask(v) <==> AbsReal(RintPs(v).Val()) > AbsReal(v.Val())
  {
    MagicValue(v);
    MagicValue(RintPs(v));
  }

  ghost function CeilPs(v: Float): (r: Float)
    requires v.Finite()
    ensures r.Finite() && r.Val() == RintPs(v).Val() + if CeilMask(v) then 1.0 else 0.0
  {
    var unit := Masked(CeilMask(v), ONE);
    MaskedIsCorrection(v, CeilMask(v), ONE);
    CorrectionIsExact(v, RintPs(v), unit);
    Add(RintPs(v), unit)
  }

  ghost function FloorPs(v: Float): (r: Float)
    requires v.Finite()
    ensures r.Finite() && r.Val() == RintPs(v).Val() - if FloorMask(v) then 1.0 else 0.0
  {
    var unit := Masked(FloorMask(v), ONE);
    MaskedIsCorrection(v, FloorMask(v), ONE);
    CorrectionIsExact(v, RintPs(v), unit);
    Sub(RintPs(v), unit)
  }

  ghost function TruncPs(v: Float): (r: Float)
    requires v.Finite()
    ensures r.Finite()
    ensures r.Val() == RintPs(v).Val() - if !TruncMask(v) then 0.0 else if v.neg then -1.0 else 1.0
  {
    var unit := Masked(TruncMask(v), WithSignOf(ONE, v));
    TruncMaskMeansDifferent(v);
    MaskedIsCorrection(v, TruncMask(v), WithSignOf(ONE, v));
    CorrectionIsExact(v, RintPs(v), unit);
    Sub(RintPs(v), unit)
  }

  lemma CeilAndFloorFromRint(y: real)
    ensures Ceil(y) == Rint(y) + if Rint(y) as real < y then 1 else 0
    ensures y.Floor == Rint(y) - if Rint(y) as real > y then 1 else 0
  {
    RintOdd(y);
  }

  /** For every finite input the corrected kernels are the exact ceiling and floor. */
  lemma CeilAndFloorAreExact(v: Float)
    requires v.Finite()
    ensures CeilPs(v).Val() == Ceil(v.Val()) as real
    ensures FloorPs(v).Val() == v.Val().Floor as real
  {
    RintPsIsExact(v);
    CeilAndFloorFromRint(v.Val());
  }

  /** For every finite input the corrected kernel truncates toward zero. */
  lemma TruncIsExact(v: Float)
    requires v.Finite()
    ensures TruncPs(v).Val() == Trunc(v.Val()) as real
  {
    RintPsIsExact(v);
    TruncMaskMeansDifferent(v);
    SignOfValue(v);
    TruncFromRint(v.Val(), v.neg);
  }

  lemma SignOfValue(v: Float)
    ensures if v.neg then v.Val() <= 0.0 else v.Val() >= 0.0
  {
    MagnitudeIsNonnegative(v);
  }

  lemma TruncFromRint(y: real, neg: bool)
    requires if neg then y <= 0.0 else y >= 0.0
    ensures Trunc(y) == Rint(y) - if !(AbsReal(Rint(y) as real) > AbsReal(y)) then 0 else if neg then -1 else 1
  {
    RintOdd(y);
  }
}
