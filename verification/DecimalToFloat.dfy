/**
 From the text of a decimal constant to the bytes of a number (lib/cpp/floating.cpp, the decimal path of `to_float`):
 the conversion and the writing put together, and how far the number written can lie from the one that the text means.
 */
module DecimalToFloat {
  import opened Common
  import opened Limbs
  import opened Powers
  import opened FloatRound
  import opened LittleEndian
  import opened FloatFormat
  import opened DecimalFloat
  import opened DecimalConvert
  import opened DecimalScan
  import FloatShift

  // ---------- One rounding ----------

  /** Shifting out less than `s` and rounding to a multiple of `u` leaves at most half of `u`, and one, times `s`. */
  lemma RoundedDistance(v: nat, s: nat, u: nat, k: nat)
    requires s > 0 && u > 0 && k == Nearest(v / s, u)
    ensures 2 * Distance(k * (u * s), v) <= (u + 2) * s
  {
    hide Nearest;
    var q, r, d := v / s, v % s, Distance(v / s, k * u);
    NearestMeans(q, u, k);
    Associate(k, u, s);
    Distribute(q, d, s);
    Distribute(k * u, d, s);
    Scale(2 * d, u, s);
    Associate(2, d, s);
    Distribute(u, 2, s);
    assert v == q * s + r;
  }

  /** The same of the numbers: `w` is the weight of the mantissa's last bit and `unit` that of the significand's. */
  lemma RoundedReal(v: nat, s: nat, u: nat, k: nat, w: real, unit: real)
    requires s > 0 && u > 0 && 2 * Distance(k * (u * s), v) <= (u + 2) * s
    requires w > 0.0 && unit == w * (u * s) as real
    ensures v as real * w - Slack(u, unit) <= k as real * unit <= v as real * w + Slack(u, unit)
  {
    hide Slack, Distance;
    Distribute(u, 2, s);
    WithinHalf(v, s, u * s, k * (u * s));
    SlackIs(u, s, w, unit);
    SameWeight(k, u * s, w, unit);
    TimesWidth(v as real, (k * (u * s)) as real, (u * s) as real / 2.0 + s as real, w);
  }

  lemma WithinHalf(v: nat, s: nat, us: nat, ks: nat)
    requires 2 * Distance(ks, v) <= us + 2 * s
    ensures v as real - (us as real / 2.0 + s as real) <= ks as real <= v as real + (us as real / 2.0 + s as real)
  {
  }

  lemma SameWeight(k: nat, us: nat, w: real, unit: real)
    requires unit == w * us as real
    ensures k as real * unit == (k * us) as real * w
  {
    RealOfProduct(k, us);
    RMul(k as real, us as real, w);
    RMul(w, us as real, 1.0);
  }

  lemma TimesWidth(v: real, x: real, half: real, w: real)
    requires v - half <= x <= v + half && w > 0.0
    ensures v * w - half * w <= x * w <= v * w + half * w
  {
    RScale(v - half, x, w);
    RScale(x, v + half, w);
    assert (v - half) * w == v * w - half * w && (v + half) * w == v * w + half * w;
  }

  /** Half a unit and the least part of it that the shift can hide. */
  function Slack(u: nat, unit: real): real
    requires u > 0
  {
    unit / 2.0 + unit / u as real
  }

  lemma SlackIs(u: nat, s: nat, w: real, unit: real)
    requires u > 0 && unit == w * (u * s) as real
    ensures Slack(u, unit) == (((u * s) as real / 2.0) + s as real) * w
  {
    RealOfProduct(u, s);
    var ur, sr := u as real, s as real;
    assert unit == (sr * w) * ur by {
      RMul(w, ur, sr);
      RMul(sr, w, ur);
    }
    Quotient(unit, sr * w, ur);
  }

  lemma Quotient(a: real, b: real, c: real)
    requires c > 0.0 && a == b * c
    ensures a / c == b
  {
    Divided(a, c);
    Cancel(a / c, b, c);
    Cancel(b, a / c, c);
  }

  // ---------- One number ----------

  lemma Weights()
    ensures Half() == Pow2(191) && One() == Pow2(192)
  {
    FloatShift.BPowIsPow2(5);
    FloatShift.BPowIsPow2(6);
    WordPowers();
    Pow2Adds(31, 160);
  }

  /** The number that a mantissa and a power of two stand for, by the weight of the mantissa's last bit. */
  lemma NumberIs(m: seq<Limb>, e: int)
    ensures Number(m, e) == Value(m) as real * Two(e - 192)
  {
    hide Two, Value, One;
    Weights();
    TwoAdds(e - 192, 192);
    TwoIsPow2(192);
    var one, w := One() as real, Two(e - 192);
    Divided(Value(m) as real, one);
    RMul(Fraction(m), one, w);
    RMul(w, one, 1.0);
  }

  lemma UnitWeight(f: Format, e: int, shift: nat)
    requires f.Sane()
    ensures Two(e + 1 - f.Bits() + shift) == Two(e - 191) * (Unit(f.Bits()) * Pow2(shift)) as real
  {
    hide Two, Pow2;
    Pow2Adds(192 - f.Bits(), shift);
    TwoIsPow2(192 - f.Bits() + shift);
    TwoAdds(e - 191, 192 - f.Bits() + shift);
    assert e - 191 + (192 - f.Bits() + shift) == e + 1 - f.Bits() + shift;
  }

  /** `k` units lie as close to `x` as rounding promises. */
  ghost predicate Close(f: Format, k: int, e: int, x: real)
    requires f.Sane()
  {
    x - Slack(Unit(f.Bits()), Two(e)) <= k as real * Two(e) <= x + Slack(Unit(f.Bits()), Two(e))
  }

  lemma CloseIs(f: Format, k: int, e: int, x: real, slack: real)
    requires f.Sane() && slack == Slack(Unit(f.Bits()), Two(e)) && x - slack <= k as real * Two(e) <= x + slack
    ensures Close(f, k, e, x)
  {
    hide Two, Slack, Unit;
  }

  lemma RoundedWithin(f: Format, v: nat, shift: nat, k: nat, e: int, unit: real, x: real)
    requires f.Sane() && k == Nearest(v / Pow2(shift), Unit(f.Bits())) && unit == Two(e + 1 - f.Bits() + shift)
    requires x == v as real * Two(e - 191)
    ensures x - Slack(Unit(f.Bits()), unit) <= k as real * unit <= x + Slack(Unit(f.Bits()), unit)
  {
    hide Two, Pow2, Nearest, Slack, Unit;
    UnitWeight(f, e, shift);
    RoundedDistance(v, Pow2(shift), Unit(f.Bits()), k);
    RoundedReal(v, Pow2(shift), Unit(f.Bits()), k, Two(e - 191), unit);
  }

  lemma RoundedIsClose(f: Format, v: nat, shift: nat, e: int, x: real)
    requires f.Sane() && v < Pow2(192) && x == v as real * Two(e - 191)
    ensures Close(f, Rounded(f, v, shift), e + 1 - f.Bits() + shift, x)
  {
    hide Two, Pow2, Nearest, Slack, Unit, Close;
    RoundedBound(f, v, shift, 0);
    var k, to := Rounded(f, v, shift), e + 1 - f.Bits() + shift;
    RoundedWithin(f, v, shift, k, e, Two(to), x);
    CloseIs(f, k, to, x, Slack(Unit(f.Bits()), Two(to)));
  }

  // ---------- What is written ----------

  /** Half a unit above the largest number of the format. */
  function Limit(f: Format): real
    requires f.Sane()
  {
    Two(f.ExpMax()) - Two(f.ExpMax() - 2 - f.mantissa)
  }

  /** What may be written for `x`: a number close to it; zero for a denormal number that is to be flushed; nothing
      finite only from half a unit above the largest number on. */
  ghost predicate Written(f: Format, minus: bool, daz: bool, y: Float, x: real)
    requires f.Sane()
  {
    match y
    case Finite(negative, k, e) => negative == minus
      && (Close(f, k, e, x) || (daz && k == 0 && x < Two(2 - f.ExpMax())))
    case Infinite(negative) => negative == minus && x >= Limit(f)
    case NotANumber => x >= Limit(f)
  }

  lemma {:induction false} TwoGrows(a: int, b: int)
    requires a <= b
    ensures Two(a) <= Two(b)
    decreases b - a
  {
    if a < b {
      TwoGrows(a, b - 1);
      TwoUp(b - 1);
    }
  }

  lemma NonNegativeSlack(u: nat, unit: real)
    requires u > 0 && unit > 0.0
    ensures Slack(u, unit) > 0.0
  {
    Inverse(u as real);
    Divided(unit, u as real);
    Cancel(0.0, unit / u as real, u as real);
  }

  lemma ZeroIsClose(f: Format, e: int)
    requires f.Sane()
    ensures Close(f, 0, e, 0.0)
  {
    hide Two, Slack, Unit;
    NonNegativeSlack(Unit(f.Bits()), Two(e));
  }

  /** Twice a significand is the significand with twice the unit. */
  lemma CloseHalved(f: Format, k: int, e: int, x: real)
    requires f.Sane() && Close(f, 2 * k, e, x)
    ensures Close(f, k, e + 1, x)
  {
    hide Two, Unit;
    TwoUp(e);
    var u, t := Unit(f.Bits()), Two(e);
    NonNegativeSlack(u, t);
    SlackDoubles(u, t);
    hide Slack;
    assert (2 * k) as real == 2.0 * k as real;
    RMul(k as real, 2.0, t);
  }

  lemma SlackDoubles(u: nat, t: real)
    requires u > 0
    ensures Slack(u, 2.0 * t) == 2.0 * Slack(u, t)
  {
    Divided(t, u as real);
    Quotient(2.0 * t, 2.0 * (t / u as real), u as real);
  }

  /** A mantissa between two powers of two. */
  lemma WeightOf(v: nat, e: int)
    requires Pow2(191) <= v < Pow2(192)
    ensures Two(e) <= v as real * Two(e - 191) < Two(e + 1)
  {
    hide Two, Pow2;
    TwoIsPow2(191);
    TwoIsPow2(192);
    TwoAdds(e - 191, 191);
    TwoAdds(e - 191, 192);
    RScale(Two(191), v as real, Two(e - 191));
    RScaleStrict(v as real, Two(192), Two(e - 191));
    RMul(Two(191), Two(e - 191), 1.0);
    RMul(Two(192), Two(e - 191), 1.0);
  }

  lemma NearTop(v: nat, e: int, m: nat)
    requires m <= 190 && Pow2(192) - Pow2(190 - m) <= v
    ensures Two(e + 1) - Two(e - 1 - m) <= v as real * Two(e - 191)
  {
    hide Two, Pow2;
    TwoIsPow2(192);
    TwoIsPow2(190 - m);
    TwoAdds(e - 191, 192);
    TwoAdds(e - 191, 190 - m);
    var w := Two(e - 191);
    assert e - 191 + (190 - m) == e - 1 - m;
    RScale(Two(192) - Two(190 - m), v as real, w);
    assert (Two(192) - Two(190 - m)) * w == Two(192) * w - Two(190 - m) * w;
    RMul(Two(192), w, 1.0);
    RMul(Two(190 - m), w, 1.0);
  }

  lemma NormalIsWritten(f: Format, minus: bool, daz: bool, v: nat, e: int, x: real)
    requires f.Sane() && Pow2(191) <= v < Pow2(192) && 2 - f.ExpMax() <= e <= f.ExpMax()
      && x == v as real * Two(e - 191)
    ensures Written(f, minus, daz, Encoded(f, minus, daz, v, e), x)
  {
    hide Two, Pow2, Rounded, Close;
    var one := Pow2(f.mantissa);
    NormalFactsOnly(f);
    RoundedToPower(f, v);
    WeightOf(v, e);
    RoundedIsClose(f, v, f.Lead(), e, x);
    assert e + 1 - f.Bits() + f.Lead() == e - f.mantissa;
    if e == f.ExpMax() {
      TwoGrows(f.ExpMax() - 2 - f.mantissa, f.ExpMax());
    } else if Rounded(f, v, f.Lead()) == 2 * one {
      NearTop(v, e, f.mantissa);
      CloseHalved(f, one, e - f.mantissa, x);
    }
  }

  lemma DenormalIsWritten(f: Format, minus: bool, daz: bool, v: nat, e: int, x: real)
    requires f.Sane() && Pow2(191) <= v < Pow2(192) && e < 2 - f.ExpMax() && x == v as real * Two(e - 191)
    ensures Written(f, minus, daz, Encoded(f, minus, daz, v, e), x)
  {
    hide Two, Pow2, Rounded, Close;
    ExpMaxIs(f);
    OneFits(f);
    WeightOf(v, e);
    TwoGrows(e + 1, 2 - f.ExpMax());
    RoundedIsClose(f, v, DenormalShift(f, e), e, x);
    assert e + 1 - f.Bits() + DenormalShift(f, e) == 2 - f.ExpMax() - f.mantissa;
  }

  lemma EncodedIsWritten(f: Format, minus: bool, daz: bool, v: nat, e: int, x: real)
    requires f.Sane() && v < Pow2(192) && (v == 0 || v >= Pow2(191)) && x == v as real * Two(e - 191)
    ensures Written(f, minus, daz, Encoded(f, minus, daz, v, e), x)
  {
    hide Two, Pow2, Rounded, Close;
    ExpMaxIs(f);
    OneFits(f);
    if v == 0 {
      ZeroIsClose(f, 2 - f.ExpMax() - f.mantissa);
    } else if e > f.ExpMax() {
      WeightOf(v, e);
      TwoGrows(f.ExpMax(), e);
    } else if e >= 2 - f.ExpMax() {
      NormalIsWritten(f, minus, daz, v, e, x);
    } else {
      DenormalIsWritten(f, minus, daz, v, e, x);
    }
  }

  // ---------- The whole way ----------

  /** The bounds of the conversion, widened by those of rounding. */
  ghost predicate Bounded(s: string, x: real, f: Format, k: int, e: int)
    requires f.Sane() && Half() > 0
  {
    var slack := Slack(Unit(f.Bits()), Two(e));
    && (x * Cut(s)) * RealPower(Left(Half()), Size(ScaleOf(s)) + 1) - slack <= k as real * Two(e)
    && k as real * Two(e) <= x * RealPower(Excess(ScaleOf(s)), Size(ScaleOf(s))) + slack
  }

  lemma ClosesUp(s: string, x: real, f: Format, k: int, e: int, v: real)
    requires f.Sane() && Half() > 0 && Converted(s, x, v) && Close(f, k, e, v)
    ensures Bounded(s, x, f, k, e)
  {
    hide Two, Slack, Unit, RealPower, Left, Half, Excess, Size, ScaleOf, Cut;
  }

  lemma FiniteIsBounded(s: string, x: real, f: Format, minus: bool, y: Float, v: real)
    requires f.Sane() && Half() > 0 && Converted(s, x, v) && Written(f, minus, false, y, v) && y.Finite?
    ensures Bounded(s, x, f, y.significand, y.exponent)
  {
    hide Converted, Close, Bounded;
    ClosesUp(s, x, f, y.significand, y.exponent, v);
  }

  // ---------- Correct rounding ----------

  function Lowest(s: string, x: real): real
    requires Half() > 0
  {
    (x * Cut(s)) * RealPower(Left(Half()), Size(ScaleOf(s)) + 1)
  }

  function Highest(s: string, x: real): real {
    x * RealPower(Excess(ScaleOf(s)), Size(ScaleOf(s)))
  }

  /** Half way between two multiples of a unit. */
  function Boundary(n: int, unit: real): real {
    (n as real + 0.5) * unit
  }

  /** No rounding boundary lies within the bounds of the conversion, or so near that the shift could hide it. */
  ghost predicate NoBoundaryNear(s: string, x: real, f: Format, e: int)
    requires f.Sane() && Half() > 0
  {
    var hidden := Two(e) / Unit(f.Bits()) as real;
    forall n: int {:trigger Boundary(n, Two(e))} ::
      Boundary(n, Two(e)) < Lowest(s, x) - hidden || Highest(s, x) + hidden < Boundary(n, Two(e))
  }

  ghost predicate NearestMultiple(x: real, k: int, unit: real) {
    x - unit / 2.0 < k as real * unit < x + unit / 2.0
  }

  lemma {:induction false} AtLeastOne(x: real, n: nat)
    requires x >= 1.0
    ensures RealPower(x, n) >= 1.0
  {
    if n > 0 {
      AtLeastOne(x, n - 1);
      RScale(1.0, x, RealPower(x, n - 1));
    }
  }

  lemma FineIsSmall()
    ensures 0.0 < Fine() < 1.0
  {
    hide RealPower;
    TenPositive(-51);
    TenGrows(-51, 0);
    assert RealPower(10.0, 0) == 1.0 by {
      NoFactors(10.0);
    }
  }

  lemma LeftIs(half: nat)
    requires half > 1
    ensures Left(half) == 1.0 - 1.0 / half as real && 0.0 <= 1.0 / half as real <= 1.0
  {
    Inverse(half as real);
    Divided(1.0, half as real);
    Cancel(1.0 / half as real, 1.0, half as real);
  }


  lemma CutIs(s: string)
    ensures 0.0 <= Cut(s) <= 1.0
  {
    hide Significant, Fine;
    FineIsSmall();
  }

  lemma LeftBetween(half: nat, n: nat)
    requires half > 1
    ensures 0.0 <= RealPower(Left(half), n) <= 1.0
  {
    hide RealPower, Left;
    LeftIs(half);
    SmallLoss(1.0 / half as real, n);
  }

  lemma LowestIsLower(s: string, x: real)
    requires x >= 0.0 && Half() > 1
    ensures Lowest(s, x) <= x
  {
    hide RealPower, Half, Left, Excess, Cut, ScaleOf, Size;
    CutIs(s);
    LeftBetween(Half(), Size(ScaleOf(s)) + 1);
    var l := RealPower(Left(Half()), Size(ScaleOf(s)) + 1);
    var c := Cut(s);
    assert Lowest(s, x) == (x * c) * l;
    TwoLosses(x, c, l);
  }

  lemma HighestIsHigher(s: string, x: real)
    requires x >= 0.0
    ensures x <= Highest(s, x)
  {
    hide RealPower, Excess, ScaleOf, Size;
    FactorSizes(ScaleOf(s));
    AtLeastOne(Excess(ScaleOf(s)), Size(ScaleOf(s)));
    NoLess(x, RealPower(Excess(ScaleOf(s)), Size(ScaleOf(s))));
  }

  lemma NoLess(x: real, p: real)
    requires x >= 0.0 && p >= 1.0
    ensures x <= x * p
  {
    RScale(1.0, p, x);
    RMul(x, p, 1.0);
  }

  /** The value itself lies within the bounds. */
  lemma WithinBounds(s: string, x: real)
    requires x >= 0.0
    ensures Half() > 0 && Lowest(s, x) <= x <= Highest(s, x)
  {
    hide RealPower, Half, Left, Excess, Cut, ScaleOf, Size, Lowest, Highest;
    Sizes();
    LowestIsLower(s, x);
    HighestIsHigher(s, x);
  }

  lemma AtMost(a: real, b: real)
    requires 0.0 <= a && 0.0 <= b <= 1.0
    ensures 0.0 <= a * b <= a
  {
    RScale(0.0, b, a);
    RScale(b, 1.0, a);
    RMul(a, b, 1.0);
  }

  lemma TwoLosses(x: real, cut: real, l: real)
    requires x >= 0.0 && 0.0 <= cut <= 1.0 && 0.0 <= l <= 1.0
    ensures (x * cut) * l <= x
  {
    AtMost(x, cut);
    AtMost(x * cut, l);
  }

  /** Away from the boundaries the number written is the nearest multiple of its unit: the rounding is correct. */
  lemma BoundedIsNearest(s: string, x: real, f: Format, k: int, e: int)
    requires f.Sane() && x >= 0.0 && Half() > 0 && Bounded(s, x, f, k, e) && NoBoundaryNear(s, x, f, e)
    ensures NearestMultiple(x, k, Two(e))
  {
    hide Two, RealPower, Half, Left, Excess, Cut, ScaleOf, Size, Boundary, Unit, Highest, Lowest, Bounded,
      NoBoundaryNear;
    WithinBounds(s, x);
    var t := Two(e);
    var hidden := t / Unit(f.Bits()) as real;
    PositiveQuotient(t, Unit(f.Bits()) as real);
    BoundedBy(s, x, f, k, e);
    BoundariesOf(k, t);
    BoundaryAt(s, x, f, e, k);
    BoundaryAt(s, x, f, e, k - 1);
    BetweenBoundaries(x, Lowest(s, x), Highest(s, x), k as real * t, t, hidden, Boundary(k, t), Boundary(k - 1, t));
  }

  lemma PositiveQuotient(a: real, b: real)
    requires a > 0.0 && b > 0.0
    ensures a / b > 0.0
  {
    Divided(a, b);
    if a / b <= 0.0 {
      RScale(a / b, 0.0, b);
    }
  }

  lemma BoundaryAt(s: string, x: real, f: Format, e: int, n: int)
    requires f.Sane() && Half() > 0 && NoBoundaryNear(s, x, f, e)
    ensures var hidden := Two(e) / Unit(f.Bits()) as real;
      Boundary(n, Two(e)) < Lowest(s, x) - hidden || Highest(s, x) + hidden < Boundary(n, Two(e))
  {
    hide Two, Half, Boundary, Unit, Highest, Lowest;
  }

  lemma BetweenBoundaries(x: real, low: real, high: real, y: real, t: real, hidden: real, above: real, below: real)
    requires low <= x <= high && low - t / 2.0 - hidden <= y <= high + t / 2.0 + hidden
    requires above == y + t / 2.0 && below == y - t / 2.0 && hidden > 0.0
    requires (above < low - hidden || high + hidden < above) && (below < low - hidden || high + hidden < below)
    ensures x - t / 2.0 < y < x + t / 2.0
  {
  }

  lemma BoundedBy(s: string, x: real, f: Format, k: int, e: int)
    requires f.Sane() && Half() > 0 && Bounded(s, x, f, k, e)
    ensures var hidden := Two(e) / Unit(f.Bits()) as real;
      Lowest(s, x) - Two(e) / 2.0 - hidden <= k as real * Two(e) <= Highest(s, x) + Two(e) / 2.0 + hidden
  {
    hide Two, RealPower, Half, Left, Excess, Cut, ScaleOf, Size, Unit;
  }

  lemma BoundariesOf(k: int, t: real)
    ensures Boundary(k, t) == k as real * t + t / 2.0 && Boundary(k - 1, t) == k as real * t - t / 2.0
  {
    assert (k - 1) as real == k as real - 1.0;
  }

  function Apart(a: real, b: real): real {
    if a < b then b - a else a - b
  }

  /** And then no other number of the format is as near, unless the unit changes there. */
  lemma NothingNearer(f: Format, x: real, k: int, e: int, n: int, other: int)
    requires f.Sane() && NearestMultiple(x, k, Two(e)) && 0 <= n < Pow2(f.mantissa + 1)
    requires other < e ==> k > Pow2(f.mantissa)
    ensures var y, z := k as real * Two(e), n as real * Two(other);
      y == z || Apart(y, x) < Apart(z, x)
  {
    hide Two, Pow2, Apart;
    Nearer(f, x, k, e, n, other, k as real * Two(e), n as real * Two(other));
  }

  lemma Nearer(f: Format, x: real, k: int, e: int, n: int, other: int, y: real, z: real)
    requires f.Sane() && 0 <= n < Pow2(f.mantissa + 1) && (other < e ==> k > Pow2(f.mantissa))
    requires y == k as real * Two(e) && z == n as real * Two(other) && x - Two(e) / 2.0 < y < x + Two(e) / 2.0
    ensures y == z || Apart(y, x) < Apart(z, x)
  {
    hide Two, Pow2, Apart;
    if other >= e {
      var m := CoarserUnit(n, e, other);
      OtherMultiple(x, k, m, Two(e), y, z);
    } else {
      var top := Pow2(f.mantissa) as real * Two(e);
      FinerUnit(f, n, e, other);
      HigherMultiple(Pow2(f.mantissa), k, Two(e), top, y);
      LowerNumber(x, y, z, top, Two(e));
    }
  }

  /** A multiple of a coarser unit is one of the unit. */
  lemma CoarserUnit(n: int, e: int, other: int) returns (m: int)
    requires other >= e
    ensures n as real * Two(other) == m as real * Two(e)
  {
    hide Two;
    TwoAdds(e, other - e);
    TwoIsPow2(other - e);
    m := n * Pow2(other - e);
    RealOfProduct(n, Pow2(other - e));
    RMul(n as real, Pow2(other - e) as real, Two(e));
    RMul(Two(e), Pow2(other - e) as real, 1.0);
  }

  lemma HigherMultiple(m: int, k: int, t: real, low: real, high: real)
    requires k > m && t > 0.0 && low == m as real * t && high == k as real * t
    ensures low + t <= high
  {
    var d := (k - m) as real;
    RScale(1.0, d, t);
    assert d == k as real - m as real;
    assert d * t == high - low;
  }

  lemma LowerNumber(x: real, y: real, z: real, w: real, t: real)
    requires x - t / 2.0 < y < x + t / 2.0 && t > 0.0 && z <= w - t / 2.0 && w + t <= y
    ensures Apart(y, x) < Apart(z, x)
  {
  }

  lemma FurtherUp(x: real, y: real, z: real, t: real)
    requires x - t / 2.0 < y < x + t / 2.0 && t > 0.0 && y + t <= z
    ensures Apart(y, x) < Apart(z, x)
  {
  }

  lemma FurtherDown(x: real, y: real, z: real, t: real)
    requires x - t / 2.0 < y < x + t / 2.0 && t > 0.0 && z + t <= y
    ensures Apart(y, x) < Apart(z, x)
  {
  }

  lemma OtherMultiple(x: real, k: int, m: int, t: real, y: real, z: real)
    requires x - t / 2.0 < y < x + t / 2.0 && t > 0.0 && y == k as real * t && z == m as real * t
    ensures y == z || Apart(y, x) < Apart(z, x)
  {
    if m > k {
      HigherMultiple(k, m, t, y, z);
      FurtherUp(x, y, z, t);
    } else if m < k {
      HigherMultiple(m, k, t, z, y);
      FurtherDown(x, y, z, t);
    }
  }

  /** Numbers with a finer unit lie half a unit below the power of two where the unit begins. */
  lemma FinerUnit(f: Format, n: int, e: int, other: int)
    requires f.Sane() && other < e && 0 <= n < Pow2(f.mantissa + 1)
    ensures n as real * Two(other) <= Pow2(f.mantissa) as real * Two(e) - Two(e) / 2.0
  {
    hide Two, Pow2;
    TwoGrows(other, e - 1);
    TwoUp(e - 1);
    Halves(f.mantissa);
    var one := Pow2(f.mantissa);
    FinerStep(n as real, Two(other), Two(e - 1), one as real, (2 * one - 1) as real, Two(e));
  }

  lemma FinerStep(n: real, o: real, t: real, one: real, last: real, unit: real)
    requires 0.0 <= n <= last && 0.0 < o <= t && last == 2.0 * one - 1.0 && unit == 2.0 * t
    ensures n * o <= one * unit - unit / 2.0
  {
    RScale(o, t, n);
    RScale(n, last, t);
    RMul(n, o, 1.0);
    RMul(n, t, 1.0);
    assert last * t == one * unit - unit / 2.0;
  }

  /** The shift for a number from two to the `e` on stays inside the mantissa. */
  predicate ShiftsInside(f: Format, e: int)
    requires f.Sane()
  {
    e >= 2 - f.ExpMax() || DenormalShift(f, e) < 192 || DenormalShift(f, e) % 32 == 0
  }

  /** The decimal path of `to_float`: `ok` says that the text is a constant, and a quiet NaN is written otherwise. The
      bytes are those of a number that lies within the bounds of the conversion and of one rounding of the constant's
      value; where no rounding boundary is that near, it is the nearest multiple of its unit. The second ghost result
      says between which powers of two the converted value lies. */
  method DecimalConstant(s: string, f: Format, minus: bool, daz: bool, stray: Limb, result: array<Byte>)
    returns (ok: bool, inside: bool, ghost v: real, ghost e: int)
    requires f.Sane() && result.Length >= f.bytes
    modifies result
    ensures ok <==> IsConstant(s)
    ensures ok ==> Half() > 0 && Converted(s, ReadValue(s), v)
    ensures ok ==> Written(f, minus, daz, Decode(f, FromLittle(result[..f.bytes])), v)
    ensures ok && WellScaled(s) ==> Converted(s, ConstantValue(s), v)
    ensures ok && WellScaled(s) && !daz && Decode(f, FromLittle(result[..f.bytes])).Finite? ==>
      var y := Decode(f, FromLittle(result[..f.bytes]));
      && Bounded(s, ConstantValue(s), f, y.significand, y.exponent)
      && (NoBoundaryNear(s, ConstantValue(s), f, y.exponent) ==>
        NearestMultiple(ConstantValue(s), y.significand, Two(y.exponent)))
    ensures ok ==> v == 0.0 == ConstantValue(s) || Two(e) <= v < Two(e + 1)
    ensures ok ==> (inside <==> v == 0.0 || ShiftsInside(f, e))
    ensures !ok ==> IsNaN(f, FromLittle(result[..f.bytes]), true)
    ensures result[f.bytes..] == old(result[f.bytes..])
  {
    hide Two, Half, Number, Value, Converted, Written, Decode, Encoded, ReadValue, ConstantValue, WellScaled,
      IsConstant, Bounded, StaysInside, ShiftsInside, Pow2, JustTooLarge, FromLittle, NoBoundaryNear,
      NearestMultiple, IsNaN;
    var mant := new Limb[LIMBS](i => 0);
    var exponent;
    ok, exponent := FlConvert(s, mant);
    inside, v, e := true, 0.0, exponent - 1;
    if ok {
      v := Number(mant[..], exponent);
      ghost var m := mant[..];
      Weights();
      NumberIs(m, exponent);
      MantissaBound(m);
      PlaceOf(f, Value(m), e, v);
      EncodedIsWritten(f, minus, daz, Value(m), e, v);
      var bytes;
      bytes, inside := ToFloat(mant, f, exponent, minus, daz, stray);
      CopyTo(bytes, result);
      ghost var y := Decode(f, FromLittle(bytes));
      if WellScaled(s) && !daz && y.Finite? {
        FiniteIsBounded(s, ConstantValue(s), f, minus, y, v);
        ValueIsPositive(s);
        if NoBoundaryNear(s, ConstantValue(s), f, y.exponent) {
          BoundedIsNearest(s, ConstantValue(s), f, y.significand, y.exponent);
        }
      }
    } else {
      var bytes := WriteSpecial(mant, f, Quiet, minus);
      CopyTo(bytes, result);
    }
  }

  method CopyTo(bytes: seq<Byte>, result: array<Byte>)
    requires |bytes| <= result.Length
    modifies result
    ensures result[..|bytes|] == bytes && result[|bytes|..] == old(result[|bytes|..])
  {
    for i := 0 to |bytes|
      invariant result[..i] == bytes[..i] && result[|bytes|..] == old(result[|bytes|..])
    {
      result[i] := bytes[i];
    }
  }

  lemma PlaceOf(f: Format, n: nat, e: int, v: real)
    requires f.Sane() && n < Pow2(192) && (n == 0 || n >= Pow2(191)) && v == n as real * Two(e - 191)
    ensures if n == 0 then v == 0.0 else Two(e) <= v < Two(e + 1)
    ensures StaysInside(f, n, e) <==> v == 0.0 || ShiftsInside(f, e)
  {
    hide Two, Pow2;
    if n > 0 {
      WeightOf(n, e);
    }
  }

  // ---------- A constant whose shift leaves the mantissa ----------

  lemma {:induction false} SmallLoss(d: real, n: nat)
    requires 0.0 <= d <= 1.0
    ensures 0.0 <= RealPower(1.0 - d, n) <= 1.0 && 1.0 - n as real * d <= RealPower(1.0 - d, n)
  {
    if n > 0 {
      SmallLoss(d, n - 1);
      LossStep((n - 1) as real, n as real, d, RealPower(1.0 - d, n - 1), (1.0 - d) * RealPower(1.0 - d, n - 1));
    }
  }

  lemma LossStep(m: real, n: real, d: real, p: real, q: real)
    requires n == m + 1.0 && 0.0 <= d <= 1.0 && 0.0 <= p <= 1.0 && 1.0 - m * d <= p && q == (1.0 - d) * p
    ensures 0.0 <= q <= 1.0 && 1.0 - n * d <= q
  {
    var x, y := m * d, d * p;
    assert n * d == x + d;
    assert q == p - y;
    RScale(0.0, p, d);
    RScale(p, 1.0, d);
    RScale(d, 1.0, p);
    RMul(d, p, 1.0);
    Bounded01(x, y, d, p);
  }

  lemma Bounded01(x: real, y: real, d: real, p: real)
    requires 0.0 <= y <= d && y <= p <= 1.0 && 1.0 - x <= p
    ensures 0.0 <= p - y <= 1.0 && 1.0 - (x + d) <= p - y
  {
  }

  lemma {:induction false} SmallGain(d: real, n: nat)
    requires 0.0 <= d && 2.0 * (n as real * d) <= 1.0
    ensures 0.0 <= RealPower(1.0 + d, n) <= 1.0 + 2.0 * (n as real * d)
  {
    if n > 0 {
      FewerParts((n - 1) as real, n as real, d);
      SmallGain(d, n - 1);
      GainStep((n - 1) as real * d, n as real * d, d, RealPower(1.0 + d, n - 1), (1.0 + d) * RealPower(1.0 + d, n - 1));
    }
  }

  lemma FewerParts(m: real, n: real, d: real)
    requires n == m + 1.0 && d >= 0.0
    ensures n * d == m * d + d && m * d <= n * d
  {
  }

  lemma GainStep(x: real, z: real, d: real, p: real, q: real)
    requires z == x + d && 0.0 <= d && 2.0 * z <= 1.0 && 0.0 <= p <= 1.0 + 2.0 * x && q == (1.0 + d) * p
    ensures 0.0 <= q <= 1.0 + 2.0 * z
  {
    var y := d * p;
    assert q == p + y;
    RScale(0.0, p, d);
    RScale(p, 2.0, d);
    RMul(d, p, 1.0);
  }

  lemma TenTo25()
    ensures RealPower(10.0, 25) == 10000000000000000000000000.0
  {
    assert RealPower(10.0, 5) == 100000.0;
    RealPowerAdds(10.0, 5, 5);
    RealPowerAdds(10.0, 10, 10);
    RealPowerAdds(10.0, 20, 5);
  }

  lemma TwoTo83()
    ensures Two(83) == 9671406556917033397649408.0
  {
    TwoIsPow2(83);
    WordPowers();
    Pow2Adds(64, 19);
    Pow2Adds(16, 3);
    assert Pow2(3) == 8;
  }

  /** Ten to the 100 lies well between two to the 332 and two to the 333. */
  lemma TenTo100()
    ensures 1.1 * Two(332) < RealPower(10.0, 100) < 0.9 * Two(333)
  {
    hide RealPower, Two;
    TenTo25();
    TwoTo83();
    RealPowerAdds(10.0, 25, 25);
    RealPowerAdds(10.0, 50, 50);
    TwoAdds(83, 83);
    TwoAdds(166, 166);
    TwoUp(332);
  }

  lemma InverseOrder(x: real, t: real, a: real, b: real, c: real)
    requires x > 0.0 && a > 0.0 && x * t == 1.0 && a * b == 1.0
    ensures c * b < t ==> c * x < a
    ensures t < c * b ==> a < c * x
  {
    var w := x * a;
    Positive(x, a);
    assert t * w == a by {
      RMul(x, a, t);
      RMul(a, x, t);
      RMul(x, t, a);
    }
    assert (c * b) * w == c * x by {
      RMul(c, b, w);
      RMul(x, a, b);
      RMul(b, w, 1.0);
    }
    if c * b < t {
      RScaleStrict(c * b, t, w);
    } else if t < c * b {
      RScaleStrict(t, c * b, w);
    }
  }

  lemma {:induction false} OnePower(n: nat)
    ensures RealPower(1.0, n) == 1.0
  {
    if n > 0 {
      OnePower(n - 1);
    }
  }

  lemma TenthTo100()
    ensures TenPower(-100) > 0.0 && 1.1 * TenPower(-100) < Two(-332) && Two(-333) < 0.9 * TenPower(-100)
  {
    hide Two, RealPower;
    TenPositive(-100);
    assert TenPower(-100) == RealPower(1.0 / 10.0, 100);
    hide TenPower;
    PowerOfProduct(1.0 / 10.0, 10.0, 100);
    OnePower(100);
    TwoAdds(-332, 332);
    TwoAdds(-333, 333);
    TwoZero();
    TenTo100();
    InverseOrder(TenPower(-100), RealPower(10.0, 100), Two(-332), Two(332), 1.1);
    InverseOrder(TenPower(-100), RealPower(10.0, 100), Two(-333), Two(333), 0.9);
  }

  lemma SmallParts()
    ensures 0.0 <= 1.0 / Half() as real <= 0.0001 && 0.0 <= 1.0 / (4.0 * One() as real) <= 0.0001
  {
    Sizes();
    Weights();
    Pow2Grows(31, 191);
    WordPowers();
    hide Pow2, Half, One;
    Quotients(Half() as real);
    Quotients(4.0 * One() as real);
  }

  lemma Quotients(x: real)
    requires x >= 10000.0
    ensures 0.0 <= 1.0 / x <= 0.0001
  {
    Inverse(x);
    Divided(1.0, x);
    Cancel(1.0 / x, 0.0001, x);
  }

  /** The text 1e-100. */
  lemma TinyText()
    ensures IsConstant("1e-100") && WellScaled("1e-100") && Significant("1e-100") == 1 && ScaleOf("1e-100") == -99
    ensures ConstantValue("1e-100") == TenPower(-100)
  {
    var s, u, x := "1e-100", "1", "-100";
    assert SignificandEnd(s) == 1 by {
      EndAt(s, 0, 1);
    }
    assert s[..1] == u && s[2..] == x && u[..0] == "";
    assert x[1..] == "100" && "100"[..2] == "10" && "10"[..1] == "1" && "1"[..0] == "";
    assert ExponentNumber("1") == 1 && ExponentNumber("10") == 10 && ExponentNumber("100") == 100;
    assert DigitsOf(u) == [1] && BeforePoint(u) == 1 && Zeros([1]) == 0;
    OneTenth(-100);
  }

  /** Up to ninety-nine products lose and gain little. */
  lemma LittleError(t: int)
    requires -99 <= t < 0
    ensures Half() > 0 && RealPower(Left(Half()), Size(t) + 1) >= 0.9 && RealPower(Excess(t), Size(t)) <= 1.1
  {
    hide RealPower, Half, One;
    Sizes();
    SmallParts();
    LittleLoss(1.0 / Half() as real, Size(t) + 1);
    LittleGain(1.0 / (4.0 * One() as real), Size(t));
  }

  lemma FewParts(n: real, d: real)
    requires 0.0 <= d <= 0.0001 && n <= 100.0
    ensures n * d <= 0.01
  {
    RScale(n, 100.0, d);
  }

  lemma LittleLoss(d: real, n: nat)
    requires 0.0 <= d <= 0.0001 && n <= 100
    ensures RealPower(1.0 - d, n) >= 0.9
  {
    hide RealPower;
    FewParts(n as real, d);
    SmallLoss(d, n);
  }

  lemma LittleGain(d: real, n: nat)
    requires 0.0 <= d <= 0.0001 && n <= 100
    ensures RealPower(1.0 + d, n) <= 1.1
  {
    hide RealPower;
    FewParts(n as real, d);
    SmallGain(d, n);
  }

  lemma TinyPlace(s: string, x: real, v: real, t: int)
    requires Half() > 0 && Converted(s, x, v) && Significant(s) <= MANT_DIGITS && -99 <= t < 0 && t == ScaleOf(s)
    requires x == TenPower(-100)
    ensures Two(-333) < v < Two(-332)
  {
    hide Two, RealPower, TenPower, Half, Left, Excess, Significant, ScaleOf, Size;
    TenthTo100();
    LittleError(t);
    Squeeze(x, v, RealPower(Left(Half()), Size(t) + 1), RealPower(Excess(t), Size(t)));
  }

  lemma Squeeze(x: real, v: real, l: real, g: real)
    requires x > 0.0 && l >= 0.9 && g <= 1.1 && (x * 1.0) * l <= v <= x * g
    ensures 0.9 * x <= v <= 1.1 * x
  {
    RScale(0.9, l, x);
    RScale(g, 1.1, x);
    RMul(x, l, 1.0);
    RMul(x, g, 1.0);
  }

  lemma TwoDecides(a: int, b: int)
    requires Two(a) < Two(b)
    ensures a < b
  {
    if b <= a {
      TwoGrows(b, a);
    }
  }

  /** As a single, 1e-100 is shifted by 215 bits: the shift reads before the mantissa. */
  method TinyConstantLeavesTheMantissa(stray: Limb) returns (inside: bool)
    ensures !inside
  {
    hide Two, Converted, Written, Bounded, Decode, ConstantValue, ReadValue, WellScaled, IsConstant, TenPower,
      Half, Significant, ScaleOf;
    TinyText();
    SinglesShift();
    var ok;
    ghost var v, e;
    var result := new Byte[4](i => 0);
    ok, inside, v, e := DecimalConstant("1e-100", IEEE_32, false, false, stray, result);
    TinyPlace("1e-100", TenPower(-100), v, -99);
    TwoDecides(-333, e + 1);
    TwoDecides(e, -332);
    assert e == -333;
  }

  lemma SinglesShift()
    ensures IEEE_32.Sane() && !ShiftsInside(IEEE_32, -333) && DenormalShift(IEEE_32, -333) == 215
  {
    assert IEEE_32.ExpMax() == Pow2(7) == 128 by {
      Pow2Adds(4, 3);
      assert Pow2(3) == 8 && Pow2(4) == 16;
    }
  }

  // ---------- Texts ----------

  /** Which reader a text is given to. */
  datatype Reader = Refused | Named(kind: Special) | Decimal(text: string) | Elsewhere

  function KindOf(letter: char): Special {
    if letter == 's' || letter == 'S' then Signalling
    else if letter == 'i' || letter == 'I' then Unlimited
    else Quiet
  }

  /** The empty text is refused, a name begins with an underscore and has its letter third, and a decimal number may
      have the prefix 0d or 0t; the packed and the binary readers are `Elsewhere`. */
  function ReaderOf(s: string): Reader {
    if s == "" then Refused
    else if s[|s| - 1] == 'P' || s[|s| - 1] == 'p' then Elsewhere
    else if s[0] == '_' then Named(KindOf(if |s| > 2 then s[2] else '\0'))
    else if s[0] == '0' && |s| > 1 then
      if s[1] in "xXhHoOqQbByYpP" then Elsewhere else if s[1] in "dDtT" then Decimal(s[2..]) else Decimal(s)
    else if s[0] == '$' then Elsewhere
    else Decimal(s)
  }

  /** What is written for the text of a decimal number: its value, or a quiet NaN if it is not a constant. */
  ghost predicate DecimalWritten(text: string, f: Format, minus: bool, daz: bool, n: nat, v: real)
    requires f.Sane()
  {
    if IsConstant(text) then
      Half() > 0 && Converted(text, ReadValue(text), v) && Written(f, minus, daz, Decode(f, n), v)
    else IsNaN(f, n, true)
  }

  /** The names, in any case. */
  lemma NamesAreRead(s: string)
    ensures Recased("__infinity__", s) ==> ReaderOf(s) == Named(Unlimited)
    ensures Recased("__nan__", s) || Recased("__qnan__", s) ==> ReaderOf(s) == Named(Quiet)
    ensures Recased("__snan__", s) ==> ReaderOf(s) == Named(Signalling)
  {
    LettersRead("__infinity__", s);
    LettersRead("__nan__", s);
    LettersRead("__qnan__", s);
    LettersRead("__snan__", s);
  }

  lemma LettersRead(name: string, s: string)
    requires |name| > 2 && name[0] == '_' == name[|name| - 1] && name[2] in "inqs"
    ensures Recased(name, s) ==>
      ReaderOf(s) == Named(if name[2] == 'i' then Unlimited else if name[2] == 's' then Signalling else Quiet)
  {
    hide SameLetter;
    if Recased(name, s) {
      assert SameLetter(name[0], s[0]) && SameLetter(name[2], s[2]) && SameLetter(name[|name| - 1], s[|s| - 1]);
      SameLetterByCode(name[0], s[0]);
      SameLetterByCode(name[2], s[2]);
      SameLetterByCode(name[|name| - 1], s[|s| - 1]);
    }
  }

  /** No name, no prefix before it, and no P at its end. */
  predicate IsPlain(text: string) {
    && text != "" && text[|text| - 1] !in "pP" && text[0] !in "_$"
    && (text[0] != '0' || |text| == 1 || text[1] !in "xXhHoOqQbByYpPdDtT")
  }

  /** Behind 0d or 0t, and no P at its end. */
  predicate IsPrefixed(s: string) {
    |s| >= 2 && s[0] == '0' && s[1] in "dDtT" && s[|s| - 1] !in "pP"
  }

  /** A plain text goes to the decimal reader as it is. */
  lemma PlainDecimal(text: string)
    requires IsPlain(text)
    ensures ReaderOf(text) == Decimal(text)
  {
  }

  /** Behind 0d or 0t, the text that follows is read, as it is alone. */
  lemma PrefixedDecimal(prefix: string, text: string)
    requires prefix == "0d" || prefix == "0D" || prefix == "0t" || prefix == "0T"
    requires IsPlain(text)
    ensures IsPrefixed(prefix + text) && ReaderOf(prefix + text) == ReaderOf(text) == Decimal(text)
  {
    var s := prefix + text;
    assert s[0] == '0' && s[1] == prefix[1] && s[2..] == text && s[|s| - 1] == text[|text| - 1];
  }

  /** `to_float`: only the empty text is refused. The names write infinity, a quiet or a signalling NaN, a decimal
      constant, with or without 0d before it, its number, and any other text for the decimal reader a quiet NaN. */
  method TextToFloat(s: string, f: Format, minus: bool, daz: bool, stray: Limb, result: array<Byte>)
    returns (success: bool, ghost v: real)
    requires f.Sane() && result.Length >= f.bytes && ReaderOf(s) != Elsewhere
    modifies result
    ensures success <==> s != ""
    ensures !success ==> result[..] == old(result[..])
    ensures result[f.bytes..] == old(result[f.bytes..])
    ensures Recased("__infinity__", s) ==> Decode(f, FromLittle(result[..f.bytes])) == Infinite(minus)
    ensures Recased("__nan__", s) || Recased("__qnan__", s) ==> IsNaN(f, FromLittle(result[..f.bytes]), true)
    ensures Recased("__snan__", s) ==> IsNaN(f, FromLittle(result[..f.bytes]), false)
    ensures IsPlain(s) ==> DecimalWritten(s, f, minus, daz, FromLittle(result[..f.bytes]), v)
    ensures IsPrefixed(s) ==> DecimalWritten(s[2..], f, minus, daz, FromLittle(result[..f.bytes]), v)
    ensures var n := FromLittle(result[..f.bytes]);
      match ReaderOf(s)
      case Refused => true
      case Elsewhere => true
      case Named(kind) => if kind == Unlimited then Decode(f, n) == Infinite(minus) else IsNaN(f, n, kind == Quiet)
      case Decimal(text) => DecimalWritten(text, f, minus, daz, n, v)
  {
    hide Half, Converted, Written, Decode, ReadValue, ConstantValue, WellScaled, IsConstant, Bounded, ShiftsInside,
      FromLittle, NoBoundaryNear, NearestMultiple, Composed, Two, IsNaN, Recased;
    success, v := true, 0.0;
    NamesAreRead(s);
    match ReaderOf(s)
    case Refused => success := false;
    case Named(kind) =>
      var mant := new Limb[LIMBS](i => 0);
      var bytes := WriteSpecial(mant, f, kind, minus);
      CopyTo(bytes, result);
    case Decimal(text) =>
      var ok, inside;
      ghost var e;
      ok, inside, v, e := DecimalConstant(text, f, minus, daz, stray, result);
  }

  /** What another reader is for: packed decimal and binary texts. */
  lemma ElsewhereMeans(s: string)
    requires s != ""
    ensures ReaderOf(s) == Elsewhere <==>
      s[|s| - 1] in "pP" || s[0] == '$' || (s[0] == '0' && |s| > 1 && s[1] in "xXhHoOqQbByYpP")
  {
  }
}
