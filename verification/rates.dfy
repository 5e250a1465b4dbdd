/**
 * The percentage change between two rates that decides whether a move is
 * dramatic (SimpleDataStore.getPercentageRateChange in both revisions).
 *
 * `Percentage` is exact. `PercentageAsWritten` follows the BigDecimal
 * steps of the source, whose division keeps only as many decimals as the
 * difference of the two rates has; `RoundingFlagsEighteenPercent` shows
 * the effect.
 */
module Rates {

  /** The rate divided by: the other one when it is strictly smaller than the new one, else the new one. */
  function Smaller(newRate: real, otherRate: real): real
  {
    if otherRate < newRate then otherRate else newRate
  }

  function Bigger(newRate: real, otherRate: real): real
  {
    if otherRate < newRate then newRate else otherRate
  }

  function Abs(x: real): real
  {
    if x < 0.0 then -x else x
  }

  /**
   * The move between two rates in percent of the smaller one, computed
   * exactly. A zero smaller rate makes the source's division throw.
   */
  function Percentage(newRate: real, otherRate: real): (p: real)
    requires Smaller(newRate, otherRate) != 0.0
    ensures Smaller(newRate, otherRate) > 0.0 ==> p >= 0.0
    ensures newRate == otherRate ==> p == 0.0
  {
    Abs(Bigger(newRate, otherRate) - Smaller(newRate, otherRate)) / Smaller(newRate, otherRate) * 100.0
  }

  /** The smaller of the two is their minimum whichever comes first. */
  lemma SmallerIsMinimum(x: real, y: real)
    ensures Smaller(x, y) == Smaller(y, x)
    ensures Smaller(x, y) <= x && Smaller(x, y) <= y
    ensures Smaller(x, y) == x || Smaller(x, y) == y
    ensures Bigger(x, y) == Bigger(y, x) && Bigger(x, y) >= x && Bigger(x, y) >= y
  {
  }

  /** Increases and decreases are measured alike: the arguments can be swapped. */
  lemma PercentageSymmetric(x: real, y: real)
    requires Smaller(x, y) != 0.0
    ensures Smaller(y, x) != 0.0
    ensures Percentage(x, y) == Percentage(y, x)
  {
    SmallerIsMinimum(x, y);
  }

  /**
   * The 20% threshold without the division: for positive rates a move is
   * dramatic exactly when the bigger rate is at least 1.2 times the smaller.
   */
  lemma PercentageThreshold(x: real, y: real)
    requires Smaller(x, y) > 0.0
    ensures Percentage(x, y) >= 20.0 <==> 5.0 * Bigger(x, y) >= 6.0 * Smaller(x, y)
  {
    var lo := Smaller(x, y);
    var hi := Bigger(x, y);
    var q := (hi - lo) / lo;
    assert hi >= lo;
    assert Percentage(x, y) == q * 100.0;
    assert q * lo == hi - lo;
    assert (q - 0.2) * lo == hi - lo - 0.2 * lo;
    if q >= 0.2 {
      assert (q - 0.2) * lo >= 0.0;
    } else {
      assert (q - 0.2) * lo < 0.0;
    }
  }

  /** 1.0 to 1.2 is 20%, as in the data-store test; 1.3 to 1.0 is 30%. */
  lemma PercentageExamples()
    ensures Percentage(1.2, 1.0) == 20.0
    ensures Percentage(1.0, 1.3) == 30.0
  {
  }

  /**
   * What the percentage is meant to be: a relative measure, the same for
   * two rates as for the same rates in any other unit.
   */
  lemma PercentageScaleInvariant(x: real, y: real, c: real)
    requires Smaller(x, y) > 0.0 && c > 0.0
    ensures Smaller(c * x, c * y) == c * Smaller(x, y) && Bigger(c * x, c * y) == c * Bigger(x, y)
    ensures Percentage(c * x, c * y) == Percentage(x, y)
  {
    ScaledExtremes(c, x, y);
    RatioOfScaled(c, Smaller(x, y), Bigger(x, y), Smaller(c * x, c * y), Bigger(c * x, c * y));
  }

  lemma ScaledExtremes(c: real, x: real, y: real)
    requires c > 0.0
    ensures Smaller(c * x, c * y) == c * Smaller(x, y) && Bigger(c * x, c * y) == c * Bigger(x, y)
  {
    ScaleKeepsOrder(c, x, y);
    if y < x {
      assert c * y < c * x;
    } else {
      assert !(c * y < c * x);
    }
  }

  lemma RatioOfScaled(c: real, lo: real, hi: real, lo2: real, hi2: real)
    requires c > 0.0 && lo > 0.0 && hi >= lo && lo2 == c * lo && hi2 == c * hi
    ensures Abs(hi2 - lo2) / lo2 == Abs(hi - lo) / lo
  {
    ScaledDifference(c, hi, lo);
    CancelCommon(c, hi - lo, lo);
  }

  lemma ScaleKeepsOrder(c: real, x: real, y: real)
    requires c > 0.0
    ensures y < x <==> c * y < c * x
  {
    assert c * x - c * y == c * (x - y);
    if y < x {
      PositiveProduct(c, x - y);
    } else {
      NonNegativeProduct(y - x, c);
      assert (y - x) * c == -(c * (x - y));
    }
  }

  lemma ScaledDifference(c: real, hi: real, lo: real)
    requires c > 0.0 && hi >= lo
    ensures Abs(c * hi - c * lo) == c * (hi - lo)
  {
    assert c * hi - c * lo == c * (hi - lo);
    NonNegativeProduct(hi - lo, c);
    assert (hi - lo) * c == c * (hi - lo);
  }

  lemma CancelCommon(c: real, a: real, b: real)
    requires c > 0.0 && b > 0.0
    ensures (c * a) / (c * b) == a / b
  {
    PositiveProduct(c, b);
    assert (a / b) * (c * b) == c * a;
  }

  /**
   * A java.math.BigDecimal: `unscaled` times ten to the minus `scale`.
   * The scale is negative for numbers written in E notation with fewer
   * digits after the point than the exponent, such as "1.0E7" (10 at scale -6).
   */
  datatype Decimal = Decimal(unscaled: int, scale: int)

  function Pow10(n: nat): (r: nat)
    ensures r >= 1
  {
    if n == 0 then 1 else 10 * Pow10(n - 1)
  }

  /** The value of one unit at scale `s`: ten to the minus `s`. */
  function Unit(s: int): (r: real)
    ensures r > 0.0
    decreases if s < 0 then -s else s
  {
    if s == 0 then 1.0
    else if s > 0 then Unit(s - 1) / 10.0
    else 10.0 * Unit(s + 1)
  }

  function DecValue(d: Decimal): (v: real)
    ensures v > 0.0 <==> d.unscaled > 0
    ensures v < 0.0 <==> d.unscaled < 0
  {
    d.unscaled as real * Unit(d.scale)
  }

  // Small facts of real arithmetic, each in a lemma of its own so that the
  // solver sees only the terms it needs.

  lemma ProductAsReal(x: int, y: int)
    ensures (x * y) as real == x as real * y as real
  {
  }

  lemma Pow10Real(k: nat)
    requires k > 0
    ensures Pow10(k) as real == 10.0 * Pow10(k - 1) as real
  {
  }

  /** One unit at a scale is ten units at the next finer one. */
  lemma UnitStep(t: int)
    ensures 10.0 * Unit(t + 1) == Unit(t)
  {
  }

  lemma UnitStepDown(s: int)
    ensures 10.0 * Unit(s) == Unit(s - 1)
  {
    UnitStep(s - 1);
  }

  /** Appending a zero digit, one scale finer, leaves the value alone. */
  lemma TenfoldFiner(x: int, t: int)
    ensures DecValue(Decimal(x * 10, t + 1)) == DecValue(Decimal(x, t))
  {
    UnitStep(t);
    assert (x * 10) as real == x as real * 10.0;
    assert (x as real * 10.0) * Unit(t + 1) == x as real * (10.0 * Unit(t + 1));
  }

  /** The same number written at the finer scale `s`, as `subtract` aligns its operands. */
  function Align(d: Decimal, s: int): (r: Decimal)
    requires d.scale <= s
    ensures r.scale == s
    ensures DecValue(r) == DecValue(d)
    decreases s - d.scale
  {
    if d.scale == s then d
    else
      TenfoldFiner(d.unscaled, d.scale);
      Align(Decimal(d.unscaled * 10, d.scale + 1), s)
  }

  function MaxScale(a: int, b: int): (m: int)
    ensures m >= a && m >= b && (m == a || m == b)
  {
    if a < b then b else a
  }

  lemma DifferenceValue(x: int, y: int, s: int)
    ensures DecValue(Decimal(x - y, s)) == DecValue(Decimal(x, s)) - DecValue(Decimal(y, s))
  {
  }

  /** `subtract`: exact, at the larger of the two scales. */
  function DecSubtract(a: Decimal, b: Decimal): (r: Decimal)
    ensures r.scale == MaxScale(a.scale, b.scale)
    ensures DecValue(r) == DecValue(a) - DecValue(b)
  {
    var s := MaxScale(a.scale, b.scale);
    var x, y := Align(a, s), Align(b, s);
    DifferenceValue(x.unscaled, y.unscaled, s);
    Decimal(x.unscaled - y.unscaled, s)
  }

  function DecAbs(d: Decimal): (r: Decimal)
    ensures r.scale == d.scale && r.unscaled >= 0
    ensures DecValue(r) == Abs(DecValue(d))
  {
    if d.unscaled < 0 then Decimal(-d.unscaled, d.scale) else d
  }

  /** The divisor's unscaled value times ten to the minus its scale, split into a numerator and a denominator factor. */
  function NumeratorFactor(b: Decimal): (r: nat)
    ensures r >= 1
  {
    Pow10(if b.scale >= 0 then b.scale else 0)
  }

  function DenominatorFactor(b: Decimal): (r: nat)
    ensures r >= 1
  {
    Pow10(if b.scale < 0 then -b.scale else 0)
  }

  /**
   * `divide(divisor, ROUND_HALF_UP)`: the quotient at the dividend's own
   * scale, rounded to the nearest step of that scale, halves upwards.
   * With `n / d` the exact quotient in units of that scale, the result is
   * the whole number nearest to it.
   */
  function DecDivideHalfUp(a: Decimal, b: Decimal): (r: Decimal)
    requires a.unscaled >= 0 && b.unscaled > 0
    ensures r.scale == a.scale
  {
    var n := a.unscaled * NumeratorFactor(b);
    var d := b.unscaled * DenominatorFactor(b);
    Decimal((2 * n + d) / (2 * d), a.scale)
  }

  lemma QuotientFinerDivisor(va: real, vb: real, x: real, y: real, u: real, ub: real, p: real, nr: real)
    requires y > 0.0 && p > 0.0 && u > 0.0 && p * ub == 1.0 && nr == x * p
    requires va == x * u && vb == y * ub
    ensures va / vb == (nr / y) * u
  {
    assert y * ub * p == y;
  }

  lemma QuotientCoarserDivisor(va: real, vb: real, x: real, y: real, u: real, ub: real, dr: real)
    requires y > 0.0 && ub > 0.0 && dr == y * ub
    requires va == x * u && vb == y * ub
    ensures va / vb == (x / dr) * u
  {
  }

  lemma TenthOfUnit(a: real, p: real, u: real, v: real)
    requires a == 10.0 * p && u == v / 10.0 && p * v == 1.0
    ensures a * u == 1.0
  {
    assert a * u == p * v;
  }

  /** Ten to the `s` units at scale `s` make one. */
  lemma {:induction false} UnitTimesPow10(s: nat)
    ensures Pow10(s) as real * Unit(s) == 1.0
  {
    if s > 0 {
      UnitTimesPow10(s - 1);
      Pow10Real(s);
      TenthOfUnit(Pow10(s) as real, Pow10(s - 1) as real, Unit(s), Unit(s - 1));
    }
  }

  lemma QuotientFinerInUnits(a: Decimal, b: Decimal)
    requires b.unscaled > 0 && b.scale >= 0
    ensures var n, d := a.unscaled * NumeratorFactor(b), b.unscaled;
      DecValue(a) / DecValue(b) == (n as real / d as real) * Unit(a.scale)
  {
    var p := NumeratorFactor(b);
    assert p == Pow10(b.scale);
    UnitTimesPow10(b.scale);
    ProductAsReal(a.unscaled, p);
    QuotientFinerDivisor(DecValue(a), DecValue(b), a.unscaled as real, b.unscaled as real,
      Unit(a.scale), Unit(b.scale), p as real, (a.unscaled * p) as real);
  }

  /** One unit at scale minus `k` is ten to the `k`. */
  lemma {:induction false} UnitOfCoarse(k: nat)
    ensures Pow10(k) as real == Unit(-(k as int))
  {
    if k > 0 {
      UnitOfCoarse(k - 1);
      Pow10Real(k);
      assert -(k as int) + 1 == -((k - 1) as int);
    }
  }

  /** For a negative scale the denominator factor carries the whole value of the divisor. */
  lemma DenominatorValue(b: Decimal)
    requires b.scale < 0
    ensures (b.unscaled * DenominatorFactor(b)) as real == b.unscaled as real * Unit(b.scale)
  {
    var p := Pow10(-b.scale);
    assert DenominatorFactor(b) == p;
    UnitOfCoarse(-b.scale);
    ProductAsReal(b.unscaled, p);
  }

  lemma QuotientCoarserInUnits(a: Decimal, b: Decimal)
    requires b.unscaled > 0 && b.scale < 0
    ensures var n, d := a.unscaled, b.unscaled * DenominatorFactor(b);
      DecValue(a) / DecValue(b) == (n as real / d as real) * Unit(a.scale)
  {
    DenominatorValue(b);
    QuotientCoarserDivisor(DecValue(a), DecValue(b), a.unscaled as real, b.unscaled as real,
      Unit(a.scale), Unit(b.scale), (b.unscaled * DenominatorFactor(b)) as real);
  }

  /** The exact quotient in units of the dividend's scale is `n / d` as the division computes them. */
  lemma QuotientInUnits(a: Decimal, b: Decimal)
    requires b.unscaled > 0
    ensures var n := a.unscaled * NumeratorFactor(b);
      var d := b.unscaled * DenominatorFactor(b);
      d > 0 && DecValue(a) / DecValue(b) == (n as real / d as real) * Unit(a.scale)
  {
    if b.scale >= 0 {
      assert DenominatorFactor(b) == 1;
      QuotientFinerInUnits(a, b);
    } else {
      assert NumeratorFactor(b) == 1;
      QuotientCoarserInUnits(a, b);
    }
  }

  /** `(2n + d) / 2d` is the whole number nearest to `n / d`, halves upwards. */
  lemma HalfUpInts(n: int, d: int)
    requires n >= 0 && d > 0
    ensures var k := (2 * n + d) / (2 * d);
      2 * d * k <= 2 * n + d < 2 * d * k + 2 * d
  {
    var k, m := (2 * n + d) / (2 * d), (2 * n + d) % (2 * d);
    assert (2 * d) * k + m == 2 * n + d && 0 <= m < 2 * d;
  }

  lemma CancelLe(c: real, x: real, y: real)
    requires c > 0.0 && c * x <= c * y
    ensures x <= y
  {
  }

  lemma CancelLt(c: real, x: real, y: real)
    requires c > 0.0 && c * x < c * y
    ensures x < y
  {
  }

  lemma HalfUpRealsCore(nr: real, dr: real, kr: real)
    requires dr > 0.0 && 2.0 * dr * kr <= 2.0 * nr + dr < 2.0 * dr * kr + 2.0 * dr
    ensures nr / dr - 0.5 < kr <= nr / dr + 0.5
  {
    var nd := nr / dr;
    assert dr * nd == nr;
    assert dr * (nd + 0.5) == nr + 0.5 * dr;
    assert dr * (nd - 0.5) == nr - 0.5 * dr;
    CancelLe(dr, kr, nd + 0.5);
    CancelLt(dr, nd - 0.5, kr);
  }

  lemma HalfUpReals(n: int, d: int, k: int)
    requires d > 0 && 2 * d * k <= 2 * n + d < 2 * d * k + 2 * d
    ensures n as real / d as real - 0.5 < k as real <= n as real / d as real + 0.5
  {
    ProductAsReal(2 * d, k);
    HalfUpRealsCore(n as real, d as real, k as real);
  }

  lemma PositiveProduct(x: real, y: real)
    requires x > 0.0 && y > 0.0
    ensures x * y > 0.0
  {
  }

  lemma NonNegativeProduct(x: real, y: real)
    requires x >= 0.0 && y > 0.0
    ensures x * y >= 0.0
  {
  }

  lemma RoundedScaledBelow(nd: real, k: real, u: real, q: real)
    requires nd - 0.5 < k && u > 0.0 && q == nd * u
    ensures q - u / 2.0 < k * u
  {
    PositiveProduct(k - nd + 0.5, u);
    assert (k - nd + 0.5) * u == k * u - q + u / 2.0;
  }

  lemma RoundedScaledAbove(nd: real, k: real, u: real, q: real)
    requires k <= nd + 0.5 && u > 0.0 && q == nd * u
    ensures k * u <= q + u / 2.0
  {
    NonNegativeProduct(nd + 0.5 - k, u);
    assert (nd + 0.5 - k) * u == q + u / 2.0 - k * u;
  }

  lemma RoundedScaled(nd: real, k: real, u: real, q: real, v: real)
    requires nd - 0.5 < k <= nd + 0.5 && u > 0.0 && q == nd * u && v == k * u
    ensures q - u / 2.0 < v <= q + u / 2.0
  {
    RoundedScaledBelow(nd, k, u, q);
    RoundedScaledAbove(nd, k, u, q);
  }

  lemma AtLeastScaled(k: int, g: int, u: real)
    requires k >= g && u > 0.0
    ensures k as real * u >= g as real * u
  {
    assert (k - g) as real * u >= 0.0;
  }

  /**
   * Half-up rounding is off by at most half a unit of the dividend's scale:
   * a little less than half below the exact quotient, at most half above.
   */
  lemma DivideHalfUpBound(a: Decimal, b: Decimal)
    requires a.unscaled >= 0 && b.unscaled > 0
    ensures var q, h := DecValue(a) / DecValue(b), Unit(a.scale) / 2.0;
      q - h < DecValue(DecDivideHalfUp(a, b)) <= q + h
  {
    var n := a.unscaled * NumeratorFactor(b);
    var d := b.unscaled * DenominatorFactor(b);
    QuotientInUnits(a, b);
    assert n >= 0 by {
      MulMono(NumeratorFactor(b), 0, a.unscaled);
    }
    var r := DecDivideHalfUp(a, b);
    HalfUpBoundInUnits(n, d, r.unscaled, DecValue(a), DecValue(b), Unit(a.scale), DecValue(r));
  }

  lemma HalfUpBoundInUnits(n: int, d: int, k: int, va: real, vb: real, u: real, v: real)
    requires n >= 0 && d > 0 && k == (2 * n + d) / (2 * d) && vb != 0.0 && u > 0.0
    requires va / vb == (n as real / d as real) * u && v == k as real * u
    ensures va / vb - u / 2.0 < v <= va / vb + u / 2.0
  {
    HalfUpInts(n, d);
    HalfUpReals(n, d, k);
    RoundedScaled(n as real / d as real, k as real, u, va / vb, v);
  }

  lemma AtLeastInUnits(q: real, nd: real, g: real, u: real)
    requires u > 0.0 && q == nd * u && q >= g * u
    ensures nd >= g
  {
  }

  lemma AtLeastInts(n: int, d: int, g: int)
    requires d > 0 && n as real / d as real >= g as real
    ensures n >= g * d
  {
    ProductAsReal(g, d);
    assert n as real >= g as real * d as real;
  }

  lemma HalfUpAtLeast(n: int, d: int, g: int)
    requires n >= 0 && d > 0 && n >= g * d
    ensures (2 * n + d) / (2 * d) >= g
  {
    assert (2 * d) * g == 2 * (g * d);
    DivAtLeast(2 * n + d, 2 * d, g);
  }

  /** Euclidean division by a positive number reaches every multiple below the dividend. */
  lemma DivAtLeast(a: int, c: int, m: int)
    requires c > 0 && c * m <= a
    ensures a / c >= m
  {
    var q, r := a / c, a % c;
    assert a == c * q + r && 0 <= r < c;
    assert c * (q + 1) == c * q + c;
    if q < m {
      MulMono(c, q + 1, m);
      assert false;
    }
  }

  lemma MulMono(c: int, x: int, y: int)
    requires c > 0 && x <= y
    ensures c * x <= c * y
  {
    assert c * y - c * x == c * (y - x);
  }

  /** Rounding half up never goes below a point of the scale's grid that the exact quotient reaches. */
  lemma DivideHalfUpAtLeast(a: Decimal, b: Decimal, g: int)
    requires a.unscaled >= 0 && b.unscaled > 0
    requires DecValue(a) / DecValue(b) >= g as real * Unit(a.scale)
    ensures DecDivideHalfUp(a, b).unscaled >= g
  {
    var n := a.unscaled * NumeratorFactor(b);
    var d := b.unscaled * DenominatorFactor(b);
    QuotientInUnits(a, b);
    assert n >= 0 by {
      MulMono(NumeratorFactor(b), 0, a.unscaled);
    }
    HalfUpAtLeastInUnits(n, d, g, DecValue(a) / DecValue(b), Unit(a.scale));
  }

  lemma HalfUpAtLeastInUnits(n: int, d: int, g: int, q: real, u: real)
    requires n >= 0 && d > 0 && u > 0.0
    requires q == (n as real / d as real) * u && q >= g as real * u
    ensures (2 * n + d) / (2 * d) >= g
  {
    AtLeastInUnits(q, n as real / d as real, g as real, u);
    AtLeastInts(n, d, g);
    HalfUpAtLeast(n, d, g);
  }

  /** `multiply`: exact, the scales add up. */
  function DecMultiply(a: Decimal, b: Decimal): (r: Decimal)
    ensures r.scale == a.scale + b.scale
  {
    Decimal(a.unscaled * b.unscaled, a.scale + b.scale)
  }

  /** `BigDecimal.valueOf(100.0)`: the string "100.0", unscaled 1000 at scale 1. */
  const Hundred: Decimal := Decimal(1000, 1)

  /** Multiplying by `Hundred` is exact: the value times 100, one decimal finer. */
  lemma TimesHundred(r: Decimal)
    ensures DecMultiply(r, Hundred).scale == r.scale + 1
    ensures DecValue(DecMultiply(r, Hundred)) == 100.0 * DecValue(r)
  {
    UnitStep(r.scale);
    ProductAsReal(r.unscaled, 1000);
    var x, u := r.unscaled as real, Unit(r.scale + 1);
    assert (x * 1000.0) * u == (x * 100.0) * (10.0 * u);
  }

  /**
   * getPercentageRateChange as written, on the decimal forms of two
   * positive rates: the difference, divided by the smaller rate at the
   * difference's scale, times 100. The quotient therefore keeps only as
   * many decimals as the finer of the two rates, and the percentage one more.
   */
  function PercentageAsWritten(newRate: Decimal, otherRate: Decimal): (p: Decimal)
    requires newRate.unscaled > 0 && otherRate.unscaled > 0
    ensures p.scale == MaxScale(newRate.scale, otherRate.scale) + 1
  {
    var x := DecValue(newRate);
    var y := DecValue(otherRate);
    var smaller := if y < x then otherRate else newRate;
    var bigger := if y < x then newRate else otherRate;
    var change := DecAbs(DecSubtract(bigger, smaller));
    DecMultiply(DecDivideHalfUp(change, smaller), Hundred)
  }

  /** The steps of `PercentageAsWritten`: the exact quotient it rounds is the exact percentage over 100. */
  lemma AsWrittenSteps(newRate: Decimal, otherRate: Decimal)
    requires newRate.unscaled > 0 && otherRate.unscaled > 0
    ensures var x, y := DecValue(newRate), DecValue(otherRate);
      var smaller := if y < x then otherRate else newRate;
      var bigger := if y < x then newRate else otherRate;
      var change := DecAbs(DecSubtract(bigger, smaller));
      change.scale == MaxScale(newRate.scale, otherRate.scale) &&
      DecValue(smaller) == Smaller(x, y) &&
      Percentage(x, y) == DecValue(change) / DecValue(smaller) * 100.0 &&
      PercentageAsWritten(newRate, otherRate) == DecMultiply(DecDivideHalfUp(change, smaller), Hundred)
  {
  }

  /**
   * The value as written against the exact percentage: at most 50 units of
   * the finer rate's scale above it, and less than that below. For rates
   * with one decimal that is within 5 percentage points.
   */
  lemma PercentageAsWrittenBound(newRate: Decimal, otherRate: Decimal)
    requires newRate.unscaled > 0 && otherRate.unscaled > 0
    ensures var p := Percentage(DecValue(newRate), DecValue(otherRate));
      var h := 50.0 * Unit(MaxScale(newRate.scale, otherRate.scale));
      p - h < DecValue(PercentageAsWritten(newRate, otherRate)) <= p + h
  {
    var x, y := DecValue(newRate), DecValue(otherRate);
    var smaller := if y < x then otherRate else newRate;
    var bigger := if y < x then newRate else otherRate;
    var change := DecAbs(DecSubtract(bigger, smaller));
    AsWrittenSteps(newRate, otherRate);
    DivideHalfUpBound(change, smaller);
    TimesHundred(DecDivideHalfUp(change, smaller));
  }

  lemma TwoTenths(s: int)
    requires s >= 1
    ensures (2 * Pow10(s - 1)) as real * Unit(s) == 0.2
  {
    UnitTimesPow10(s - 1);
    UnitStepDown(s);
    ProductAsReal(2, Pow10(s - 1));
    TwoTenthsReal(Pow10(s - 1) as real, Unit(s), Unit(s - 1));
  }

  lemma TwoTenthsReal(p: real, u: real, v: real)
    requires p * v == 1.0 && 10.0 * u == v
    ensures (2 as real * p) * u == 0.2
  {
    assert p * (10.0 * u) == 1.0;
  }

  lemma AtLeastTwoTenths(k: int, s: int)
    requires s >= 1 && k >= 2 * Pow10(s - 1)
    ensures DecValue(Decimal(k, s)) >= 0.2
  {
    TwoTenths(s);
    AtLeastScaled(k, 2 * Pow10(s - 1), Unit(s));
  }

  /** A quotient of at least 0.2 at a scale of one decimal or finer rounds to at least 0.2: 20% or more once times 100. */
  lemma QuotientKeepsTwentyPercent(change: Decimal, smaller: Decimal)
    requires change.unscaled >= 0 && smaller.unscaled > 0 && change.scale >= 1
    requires DecValue(change) / DecValue(smaller) >= 0.2
    ensures DecValue(DecMultiply(DecDivideHalfUp(change, smaller), Hundred)) >= 20.0
  {
    var s := change.scale;
    var g := 2 * Pow10(s - 1);
    var r := DecDivideHalfUp(change, smaller);
    assert r.unscaled >= g by {
      TwoTenths(s);
      DivideHalfUpAtLeast(change, smaller, g);
    }
    AtLeastTwoTenths(r.unscaled, s);
    TimesHundred(r);
  }

  /**
   * Rounding only ever adds flags: when the rates carry at least one
   * decimal, a move that is 20% or more exactly is 20% or more as written.
   */
  lemma PercentageAsWrittenKeepsFlags(newRate: Decimal, otherRate: Decimal)
    requires newRate.unscaled > 0 && otherRate.unscaled > 0
    requires MaxScale(newRate.scale, otherRate.scale) >= 1
    requires Percentage(DecValue(newRate), DecValue(otherRate)) >= 20.0
    ensures DecValue(PercentageAsWritten(newRate, otherRate)) >= 20.0
  {
    var x, y := DecValue(newRate), DecValue(otherRate);
    var smaller := if y < x then otherRate else newRate;
    var bigger := if y < x then newRate else otherRate;
    var change := DecAbs(DecSubtract(bigger, smaller));
    AsWrittenSteps(newRate, otherRate);
    QuotientKeepsTwentyPercent(change, smaller);
  }

  /**
   * The rounding at work: from 5.0 to 5.9 is a move of 18%, which the
   * source computes as 0.9 / 5.0 = 0.18, rounded to one decimal, 0.2, and
   * so reports, and flags, as 20%.
   */
  lemma RoundingFlagsEighteenPercent()
    ensures DecValue(Decimal(59, 1)) == 5.9 && DecValue(Decimal(50, 1)) == 5.0
    ensures DecValue(PercentageAsWritten(Decimal(59, 1), Decimal(50, 1))) == 20.0
    ensures Percentage(5.9, 5.0) == 18.0
    ensures DecValue(PercentageAsWritten(Decimal(59, 1), Decimal(50, 1))) >= 20.0 > Percentage(5.9, 5.0)
  {
    assert Unit(1) == 0.1 && Unit(2) == 0.01;
    var change := DecAbs(DecSubtract(Decimal(59, 1), Decimal(50, 1)));
    assert change == Decimal(9, 1);
    assert DecDivideHalfUp(change, Decimal(50, 1)) == Decimal(2, 1);
    assert DecMultiply(Decimal(2, 1), Hundred) == Decimal(2000, 2);
  }

  /**
   * Rates of ten million or more reach the division in E notation, 2.0E7
   * as 20 at scale -6 and 1.0E7 as 10 at scale -6, so the quotient is
   * rounded to millions: a doubling, 100% exactly, comes out as 0%.
   */
  lemma LargeRatesLoseTheChange()
    ensures DecValue(Decimal(20, -6)) == 20000000.0 && DecValue(Decimal(10, -6)) == 10000000.0
    ensures Percentage(20000000.0, 10000000.0) == 100.0
    ensures DecValue(PercentageAsWritten(Decimal(20, -6), Decimal(10, -6))) == 0.0
  {
    assert Unit(-6) == 1000000.0 by {
      assert Unit(-1) == 10.0 && Unit(-2) == 100.0 && Unit(-3) == 1000.0;
      assert Unit(-4) == 10000.0 && Unit(-5) == 100000.0;
    }
    assert DenominatorFactor(Decimal(10, -6)) == 1000000 by {
      assert Pow10(2) == 100 && Pow10(3) == 1000 && Pow10(4) == 10000;
      assert Pow10(5) == 100000 && Pow10(6) == 1000000;
    }
    var change := DecAbs(DecSubtract(Decimal(20, -6), Decimal(10, -6)));
    assert change == Decimal(10, -6);
    assert DecDivideHalfUp(change, Decimal(10, -6)) == Decimal(0, -6);
  }
}
