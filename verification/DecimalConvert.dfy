/**
 Decimal to binary floating point as a whole (lib/cpp/floating.cpp, `ieee_flconvert` from the kept digits on): the
 digits become bits, and these are multiplied by a power of five.
 */
module DecimalConvert {
  import opened Limbs
  import opened DecimalFloat
  import opened DecimalDigits

  // ---------- The factors ----------

  const FIVE_EIGHTHS: Limb := 0xA000_0000
  const FOUR_FIFTHS: Limb := 0xCCCC_CCCC

  /** 0xA000... is five eighths. */
  lemma FiveIs(m: seq<Limb>)
    requires |m| == LIMBS && m[0] == FIVE_EIGHTHS && forall k :: 0 < k < LIMBS ==> m[k] == 0
    ensures Normal(m) && Number(m, 3) == 5.0
  {
    LeadingLimbs(m, 1);
    ZeroValue(m[1..]);
    assert Value(m[..1]) == m[0] by {
      ValueSnoc([], m[0]);
      assert m[..1] == [] + [m[0]];
    }
    assert BPow(6) == BASE * BPow(5);
    TwoZero();
    TwoUp(0);
    TwoUp(1);
    TwoUp(2);
    var p, v := BPow(5), Value(m);
    hide Value, BPow, Two;
    assert Fraction(m) == v as real / (BASE * p) as real;
    Divided(v as real, (BASE * p) as real);
    FiveEighths(Fraction(m), p as real);
  }

  lemma FiveEighths(f: real, p: real)
    requires p > 0.0 && f * (4294967296.0 * p) == 2684354560.0 * p
    ensures f * 8.0 == 5.0
  {
    assert (f * 4294967296.0) * p == 2684354560.0 * p;
    Cancel(f * 4294967296.0, 2684354560.0, p);
    Cancel(2684354560.0, f * 4294967296.0, p);
  }

  /** Limbs of 0xCCCCCCCC write four fifths, less four fifths of a unit. */
  lemma {:induction false} FourFifths(m: seq<nat>)
    requires forall k :: 0 <= k < |m| ==> m[k] == FOUR_FIFTHS
    ensures 5 * Value(m) == 4 * BPow(|m|) - 4
  {
    if m != [] {
      FourFifths(m[..|m| - 1]);
    }
  }

  /** With one added to the last limb they are the least mantissa above four fifths. */
  lemma FifthIs(m: seq<Limb>)
    requires |m| == LIMBS && m[5] == FOUR_FIFTHS + 1 && forall k :: 0 <= k < 5 ==> m[k] == FOUR_FIFTHS
    ensures Normal(m) && Number(m, -2) == (1.0 / 5.0) * (1.0 + 1.0 / (4.0 * One() as real))
  {
    FourFifths(m[..5]);
    assert m == m[..5] + [m[5]];
    ValueSnoc(m[..5], m[5]);
    assert BPow(6) == BASE * BPow(5);
    TwoZero();
    TwoUp(-1);
    TwoUp(-2);
    var v, one := Value(m), One();
    hide Value, BPow, Two;
    assert 5 * v == 4 * one + 1;
    Divided(v as real, one as real);
    OneFifth(Fraction(m), v as real, one as real, 1.0 / (4.0 * one as real));
  }

  lemma OneFifth(f: real, v: real, one: real, e: real)
    requires one > 0.0 && f * one == v && 5.0 * v == 4.0 * one + 1.0 && e == 1.0 / (4.0 * one)
    ensures f * 0.25 == (1.0 / 5.0) * (1.0 + e)
  {
    assert e * (4.0 * one) == 1.0;
    assert (5.0 * f) * one == (4.0 + 4.0 * e) * one;
    Cancel(5.0 * f, 4.0 + 4.0 * e, one);
    Cancel(4.0 + 4.0 * e, 5.0 * f, one);
  }

  // ---------- Powers of ten ----------

  lemma {:induction false} PowerOfProduct(x: real, y: real, n: nat)
    ensures RealPower(x * y, n) == RealPower(x, n) * RealPower(y, n)
  {
    if n > 0 {
      PowerOfProduct(x, y, n - 1);
      Regroup(x, y, RealPower(x, n - 1), RealPower(y, n - 1));
    }
  }

  lemma {:induction false} TwoIsPower(n: nat)
    ensures Two(n) == RealPower(2.0, n) && Two(0 - n) == RealPower(1.0 / 2.0, n)
  {
    if n > 0 {
      TwoIsPower(n - 1);
    }
  }

  /** 10 to a power that may be negative. */
  function TenPower(t: int): real {
    if t >= 0 then RealPower(10.0, t) else RealPower(1.0 / 10.0, 0 - t)
  }

  /** The factor five, or one fifth. */
  function Five(t: int): real {
    if t >= 0 then 5.0 else 1.0 / 5.0
  }

  function Size(t: int): nat {
    if t >= 0 then t else 0 - t
  }

  lemma TenIsTwoTimesFive(t: int)
    ensures TenPower(t) == Two(t) * RealPower(Five(t), Size(t))
  {
    var n := Size(t);
    TwoIsPower(n);
    if t >= 0 {
      PowerOfProduct(2.0, 5.0, n);
    } else {
      PowerOfProduct(1.0 / 2.0, 1.0 / 5.0, n);
    }
  }

  // ---------- The whole conversion ----------

  /** The number that digits after a point and a power of ten write. */
  function Meant(digits: seq<Digit>, tenpwr: int): real {
    Point(digits) * TenPower(tenpwr)
  }

  /** How much too large the factor is: not at all, or by one part in 2 to the 194. */
  function Excess(tenpwr: int): real {
    if tenpwr >= 0 then 1.0 else 1.0 + 1.0 / (4.0 * One() as real)
  }

  ghost predicate Approximates(v: real, number: real, tenpwr: int)
    requires Half() > 0
  {
    && number * RealPower(Left(Half()), Size(tenpwr) + 1) <= v
    && v <= number * RealPower(Excess(tenpwr), Size(tenpwr))
  }

  ghost function CourseOf(point: real, tenpwr: int): Course
    requires Half() > 0
  {
    Course(Left(Half()), Five(tenpwr) * Left(Half()), Five(tenpwr) * Excess(tenpwr), point * Two(tenpwr))
  }

  lemma FactorSizes(tenpwr: int)
    ensures Five(tenpwr) > 0.0 && Excess(tenpwr) >= 1.0
  {
    hide One;
    Inverse(4.0 * One() as real);
  }

  lemma CourseIsValid(point: real, tenpwr: int)
    requires point >= 0.0
    ensures Half() > 0 && CourseOf(point, tenpwr).Valid()
  {
    hide Half, Left, Two, One, Five, Excess;
    Sizes();
    FactorSizes(tenpwr);
    Positive(Five(tenpwr), Left(Half()));
    Positive(Five(tenpwr), Excess(tenpwr));
    RScale(0.0, point, Two(tenpwr));
    assert 0.0 * Two(tenpwr) == 0.0;
  }

  lemma Inverse(x: real)
    requires x > 0.0
    ensures 1.0 / x > 0.0
  {
  }

  /** The bounds of the loop, with the powers of two and five put together. */
  lemma CourseEnds(k: Course, v: real, point: real, two: real, f: real, l: real, e: real, n: nat)
    requires k == Course(l, f * l, f * e, point * two) && k.Reached(v, n)
    ensures (point * (two * RealPower(f, n))) * RealPower(l, n + 1) <= v
    ensures v <= (point * (two * RealPower(f, n))) * RealPower(e, n)
  {
    hide RealPower;
    PowerOfProduct(f, l, n);
    PowerOfProduct(f, e, n);
    OneMorePower(l, n);
    RegroupLow(point, two, l, RealPower(f, n), RealPower(l, n));
    RegroupHigh(point, two, RealPower(f, n), RealPower(e, n));
  }

  lemma OneMorePower(x: real, n: nat)
    ensures RealPower(x, n + 1) == x * RealPower(x, n)
  {
  }

  lemma RegroupLow(d: real, w: real, l: real, fn: real, ln: real)
    ensures ((d * w) * l) * (fn * ln) == (d * (w * fn)) * (l * ln)
  {
    Regroup(d * w, l, fn, ln);
    RMul(d, w, fn);
  }

  lemma RegroupHigh(d: real, w: real, fn: real, en: real)
    ensures (d * w) * (fn * en) == (d * (w * fn)) * en
  {
    RMul(d * w, fn, en);
    RMul(d, w, fn);
  }

  /** The bits of the digits, with the power of two that goes with the power of ten, are where the loop starts. */
  lemma CourseBegins(m: seq<Limb>, twopwr: int, point: real, tenpwr: int)
    requires Leading(m, twopwr, point) && Half() > 0
    ensures CourseOf(point, tenpwr).Reached(Number(m, twopwr + tenpwr), 0)
  {
    hide RealPower, Half, Left, Two, Fraction, Five, Excess, Value;
    TwoAdds(twopwr, tenpwr);
    var k := CourseOf(point, tenpwr);
    NoFactors(k.low);
    NoFactors(k.high);
    var w, v := Two(tenpwr), Number(m, twopwr);
    assert k.left * point <= v <= point;
    hide Leading;
    assert Number(m, twopwr + tenpwr) == v * w by {
      RMul(Fraction(m), Two(twopwr), w);
    }
    BeginBounds(k.left, point, w, v);
  }

  lemma NoFactors(x: real)
    ensures RealPower(x, 0) == 1.0
  {
  }

  lemma BeginBounds(l: real, point: real, w: real, v: real)
    requires l * point <= v <= point && w > 0.0
    ensures ((point * w) * l) * 1.0 <= v * w <= (point * w) * 1.0
  {
    RScale(l * point, v, w);
    RScale(v, point, w);
    RMul(l, point, w);
    RMul(point * w, l, 1.0);
  }

  lemma FactorBegins(point: real, tenpwr: int, u: real)
    requires Half() > 0 && u == Five(tenpwr) * Excess(tenpwr)
    ensures CourseOf(point, tenpwr).Factor(u, 1)
  {
    hide Half, Left, One, RealPower, Five, Excess, Two;
    Sizes();
    FactorSizes(tenpwr);
    var k, f, e := CourseOf(point, tenpwr), Five(tenpwr), Excess(tenpwr);
    OneFactor(k.low);
    OneFactor(k.high);
    Positive(f, e);
    AtLeast(k.left, f, e);
  }

  lemma OneFactor(x: real)
    ensures RealPower(x, 1) == x
  {
    assert RealPower(x, 0) == 1.0;
  }

  lemma AtLeast(l: real, f: real, e: real)
    requires l > 0.0 && f > 0.0 && e >= 1.0
    ensures f * l <= l * (f * e)
  {
    Positive(f, l);
    RScale(1.0, e, f * l);
    RMul(l, f, e);
    RMul(f, l, e);
  }

  /** The factor for a power of five and the power of two that goes with it. */
  method SetFactor(mult: array<Limb>, tenpwr: int) returns (extratwos: int)
    requires mult.Length == LIMBS && tenpwr != 0
    modifies mult
    ensures Normal(mult[..]) && Number(mult[..], extratwos) == Five(tenpwr) * Excess(tenpwr)
  {
    hide Number, Value, Half;
    var m := 0;
    if tenpwr < 0 {
      while m < LIMBS - 1
        invariant m <= LIMBS - 1 && forall k :: 0 <= k < m ==> mult[k] == FOUR_FIFTHS
      {
        mult[m] := FOUR_FIFTHS;
        m := m + 1;
      }
      mult[LIMBS - 1] := FOUR_FIFTHS + 1;
      FifthIs(mult[..]);
      return -2;
    }
    mult[0] := FIVE_EIGHTHS;
    m := 1;
    while m < LIMBS
      invariant 1 <= m <= LIMBS && mult[0] == FIVE_EIGHTHS && forall k :: 0 < k < m ==> mult[k] == 0
    {
      mult[m] := 0;
      m := m + 1;
    }
    FiveIs(mult[..]);
    return 3;
  }

  /** `ieee_flconvert`, once the digits are kept: the result lies below the number they write by at most the
      truncations of as many products as the power of ten, and above it only through the factor one fifth; it is
      normalised or zero. */
  method Convert(digits: array<Digit>, count: nat, tenpwr: int, mant: array<Limb>) returns (exponent: int)
    requires count <= digits.Length && mant.Length == LIMBS
    modifies digits, mant
    ensures Half() > 0 && Approximates(Number(mant[..], exponent), Meant(old(digits[..count]), tenpwr), tenpwr)
    ensures if old(Point(digits[..count])) == 0.0 then Zero(mant[..]) else Normal(mant[..])
  {
    hide Number, Value, Half, Point, TenPower, Five, Excess, Left, RealPower, Two, Course.Reached, Course.Factor;
    ghost var point := Point(digits[..count]);
    PointBound(digits[..count]);
    CourseIsValid(point, tenpwr);
    var twopwr := ToBits(digits, count, mant);
    CourseBegins(mant[..], twopwr, point, tenpwr);
    exponent := twopwr + tenpwr;
    if tenpwr != 0 {
      var mult := new Limb[LIMBS](i => 0);
      var extratwos := SetFactor(mult, tenpwr);
      FactorBegins(point, tenpwr, Number(mult[..], extratwos));
      var power := if tenpwr < 0 then 0 - tenpwr else tenpwr;
      exponent := TimesPower(mant, mult, exponent, extratwos, power, CourseOf(point, tenpwr));
    }
    CourseEnds(CourseOf(point, tenpwr), Number(mant[..], exponent), point, Two(tenpwr), Five(tenpwr), Left(Half()),
      Excess(tenpwr), Size(tenpwr));
    TenIsTwoTimesFive(tenpwr);
  }
}
