/**
 Decimal to binary floating point (lib/cpp/floating.cpp, `ieee_flconvert` from the kept digits on).

 A mantissa of six limbs is a fraction; with a power of two it is a number. How far the result may lie from the number
 that the kept digits write is stated in exact real arithmetic.
 */
module DecimalFloat {
  import opened Limbs
  import opened Powers
  import opened FloatMultiply

  // ---------- Powers ----------

  function RealPower(x: real, n: nat): real {
    if n == 0 then 1.0 else x * RealPower(x, n - 1)
  }

  lemma RMul(x: real, y: real, z: real)
    ensures (x * y) * z == x * (y * z) && x * y == y * x
  {
  }

  lemma RScale(x: real, y: real, z: real)
    requires x <= y && 0.0 <= z
    ensures x * z <= y * z
  {
  }

  lemma {:induction false} RealPowerAdds(x: real, m: nat, n: nat)
    ensures RealPower(x, m + n) == RealPower(x, m) * RealPower(x, n)
    decreases m
  {
    if m > 0 {
      RealPowerAdds(x, m - 1, n);
      RMul(x, RealPower(x, m - 1), RealPower(x, n));
    }
  }

  lemma {:induction false} RealPowerPositive(x: real, n: nat)
    requires x > 0.0
    ensures RealPower(x, n) > 0.0
  {
    if n > 0 {
      RealPowerPositive(x, n - 1);
    }
  }

  /** 2 to a power that may be negative. */
  function Two(e: int): (r: real)
    ensures r > 0.0
    decreases if e < 0 then -e else e
  {
    if e == 0 then 1.0 else if e > 0 then 2.0 * Two(e - 1) else Two(e + 1) / 2.0
  }

  lemma TwoUp(e: int)
    ensures Two(e + 1) == 2.0 * Two(e)
  {
  }

  lemma TwoZero()
    ensures Two(0) == 1.0
  {
  }

  lemma {:induction false} TwoAdds(a: int, b: int)
    ensures Two(a + b) == Two(a) * Two(b)
    decreases if b < 0 then -b else b
  {
    hide Two;
    if b == 0 {
      TwoZero();
    } else if b > 0 {
      TwoAdds(a, b - 1);
      TwoUp(a + b - 1);
      TwoUp(b - 1);
      DoubleBoth(Two(a + b), Two(a + (b - 1)), Two(a), Two(b), Two(b - 1));
    } else {
      TwoAdds(a, b + 1);
      TwoUp(a + b);
      TwoUp(b);
      HalveBoth(Two(a + b), Two(a + (b + 1)), Two(a), Two(b), Two(b + 1));
    }
  }

  lemma DoubleBoth(ab: real, ab1: real, ta: real, tb: real, tb1: real)
    requires ab == 2.0 * ab1 && tb == 2.0 * tb1 && ab1 == ta * tb1
    ensures ab == ta * tb
  {
  }

  lemma HalveBoth(ab: real, ab1: real, ta: real, tb: real, tb1: real)
    requires ab1 == 2.0 * ab && tb1 == 2.0 * tb && ab1 == ta * tb1
    ensures ab == ta * tb
  {
    assert ta * tb1 == 2.0 * (ta * tb);
  }

  lemma {:induction false} TwoIsPow2(n: nat)
    ensures Two(n) == Pow2(n) as real
  {
    if n > 0 {
      TwoIsPow2(n - 1);
    }
  }

  // ---------- Numbers ----------

  /** 2 to the 191, the least normalised mantissa, and 2 to the 192, one. */
  function Half(): nat {
    TOP * BPow(5)
  }

  function One(): (n: nat)
    ensures n > 0
  {
    BPow(6)
  }

  function Fraction(m: seq<Limb>): real {
    Value(m) as real / One() as real
  }

  function Number(m: seq<Limb>, e: int): real {
    Fraction(m) * Two(e)
  }

  ghost predicate Normal(m: seq<Limb>) {
    |m| == LIMBS && Value(m) >= Half()
  }

  ghost predicate Zero(m: seq<Limb>) {
    |m| == LIMBS && Value(m) == 0
  }

  /** How much of a number is surely left by one truncation: 1 - 2 to the -191. */
  function Left(half: nat): real
    requires half > 0
  {
    1.0 - 1.0 / half as real
  }

  lemma Sizes()
    ensures Half() > 1 && One() == 2 * Half() && TOP * BPow(11) == Half() * One()
    ensures 0.0 < Left(Half()) < 1.0
  {
    assert BPow(6) == BASE * BPow(5);
    BPowAdds(5, 6);
    Associate(TOP, BPow(5), BPow(6));
    var h := Half() as real;
    assert 0.0 < 1.0 / h < 1.0;
  }

  // ---------- One product ----------

  /** A truncated quotient of something not small keeps all but one part in `half`. */
  lemma TruncatedQuotient(n: nat, half: nat, one: nat)
    requires half > 0 && one > 0 && (n == 0 || n >= half * one)
    ensures var r := n / one;
      r * one <= n && (half - 1) * n <= half * (r * one) && (n > 0 ==> r >= half)
      && (n == 0 ==> r == 0)
  {
    var r := n / one;
    DividedIsSmaller(n, one);
    var x := r * one;
    assert n == x + n % one;
    if n > 0 {
      Distribute(half, -1, n);
      Commute(half, n);
      Commute(half, x);
      assert n <= x + one - 1;
      Scale(n, x + one - 1, half);
      Distribute(x, one - 1, half);
      Distribute(one, -1, half);
      Commute(one, half);
      if r < half {
        Scale(r + 1, half, one);
        Distribute(r, 1, one);
      }
    }
  }

  lemma Cancel(x: real, y: real, z: real)
    requires z > 0.0 && x * z <= y * z
    ensures x <= y
  {
    if x > y {
      RScaleStrict(y, x, z);
    }
  }

  lemma RScaleStrict(x: real, y: real, z: real)
    requires x < y && 0.0 < z
    ensures x * z < y * z
  {
  }

  lemma Positive(x: real, y: real)
    requires x > 0.0 && y > 0.0
    ensures x * y > 0.0
  {
  }

  lemma Regroup(x: real, y: real, u: real, v: real)
    ensures (x * y) * (u * v) == (x * u) * (y * v)
  {
    RMul(x, y, u * v);
    RMul(y, u, v);
    RMul(u, y, v);
    RMul(x, u, y * v);
  }

  lemma Divided(a: real, one: real)
    requires one > 0.0
    ensures (a / one) * one == a
  {
  }

  lemma LeftTimes(half: real)
    requires half > 0.0
    ensures (1.0 - 1.0 / half) * half == half - 1.0
  {
  }

  /** The same said of fractions; `scale` is 1 or 1/2. */
  lemma AsFractions(a: real, b: real, r: real, n: real, half: real, one: real, scale: real)
    requires one > 0.0 && half > 0.0 && scale > 0.0 && n * scale == a * b
    requires r * one <= n && (half - 1.0) * n <= half * (r * one)
    ensures (1.0 - 1.0 / half) * ((a / one) * (b / one)) <= (r / one) * scale <= (a / one) * (b / one)
  {
    var fr, fa, fb, left := r / one, a / one, b / one, 1.0 - 1.0 / half;
    Divided(r, one);
    Divided(a, one);
    Divided(b, one);
    LeftTimes(half);
    FractionsCompared(a, b, r, n, half, one, scale, fr, fa, fb, left);
  }

  lemma FractionsCompared(a: real, b: real, r: real, n: real, half: real, one: real, scale: real,
                          fr: real, fa: real, fb: real, left: real)
    requires one > 0.0 && half > 0.0 && scale > 0.0 && n * scale == a * b
    requires r * one <= n && (half - 1.0) * n <= half * (r * one)
    requires fr * one == r && fa * one == a && fb * one == b && left * half == half - 1.0
    ensures left * (fa * fb) <= fr * scale <= fa * fb
  {
    var x, ab := r * one, a * b;
    var g, h := fa * b, r * scale;
    assert g * one == ab by {
      RMul(fa, b, one);
      RMul(fa, one, b);
    }
    assert h * one == x * scale by {
      RMul(r, scale, one);
      RMul(r, one, scale);
    }
    UpperBound(g, h, ab, x, n, one, scale);
    LowerBound(g, h, ab, x, n, half, one, scale, left, half - 1.0);
    LastFactor(fa, b, fb, r, fr, one, scale, left);
  }

  lemma LastFactor(fa: real, b: real, fb: real, r: real, fr: real, one: real, scale: real, left: real)
    requires one > 0.0 && fb * one == b && fr * one == r && left * (fa * b) <= r * scale <= fa * b
    ensures left * (fa * fb) <= fr * scale <= fa * fb
  {
    var g, h := fa * fb, fr * scale;
    assert g * one == fa * b by {
      RMul(fa, fb, one);
    }
    assert h * one == r * scale by {
      RMul(fr, scale, one);
      RMul(fr, one, scale);
    }
    assert (left * g) * one == left * (fa * b) by {
      RMul(left, g, one);
    }
    Cancel(h, g, one);
    Cancel(left * g, h, one);
  }

  lemma UpperBound(g: real, h: real, ab: real, x: real, n: real, sq: real, scale: real)
    requires scale > 0.0 && sq > 0.0 && n * scale == ab && x <= n && g * sq == ab && h * sq == x * scale
    ensures h <= g
  {
    RScale(x, n, scale);
    Cancel(h, g, sq);
  }

  lemma LowerBound(g: real, h: real, ab: real, x: real, n: real, half: real, sq: real, scale: real, left: real, c: real)
    requires half > 0.0 && scale > 0.0 && sq > 0.0 && n * scale == ab && c * n <= half * x
    requires g * sq == ab && h * sq == x * scale && left * half == c
    ensures left * g <= h
  {
    var lhs, rhs := (left * g) * (half * sq), h * (half * sq);
    assert lhs == c * ab by {
      Regroup(left, g, half, sq);
    }
    assert rhs == half * (x * scale) by {
      RMul(h, half, sq);
      RMul(half, h, sq);
    }
    var t, u := c * n, half * x;
    assert c * ab == t * scale by {
      RMul(c, n, scale);
    }
    assert half * (x * scale) == u * scale by {
      RMul(half, x, scale);
    }
    RScale(t, u, scale);
    Positive(half, sq);
    Cancel(left * g, h, half * sq);
  }

  lemma RealOfProduct(a: int, b: int)
    ensures (a * b) as real == a as real * b as real
  {
  }

  lemma ScaledBack(x: nat, y: nat, n: nat, shift: int)
    requires (shift == 0 || shift == -1) && n == if shift == 0 then x * y else 2 * (x * y)
    ensures n as real * Two(shift) == x as real * y as real
  {
    RealOfProduct(x, y);
    TwoZero();
    TwoUp(-1);
    hide Two;
    var xy := x * y;
    assert xy as real == x as real * y as real;
    if shift == -1 {
      assert n as real == 2.0 * xy as real;
      assert 2.0 * Two(-1) == 1.0;
      RMul(xy as real, 2.0, Two(-1));
    }
  }

  lemma ScaledFractions(x: nat, y: nat, q: nat, n: nat, half: nat, one: nat, shift: int)
    requires half > 0 && one > 0 && (shift == 0 || shift == -1) && n == if shift == 0 then x * y else 2 * (x * y)
    requires q * one <= n && (half - 1) * n <= half * (q * one)
    ensures Left(half) * ((x as real / one as real) * (y as real / one as real))
      <= (q as real / one as real) * Two(shift)
    ensures (q as real / one as real) * Two(shift) <= (x as real / one as real) * (y as real / one as real)
  {
    hide Two;
    ScaledBack(x, y, n, shift);
    InReals(q, n, half, one);
    AsFractions(x as real, y as real, q as real, n as real, half as real, one as real, Two(shift));
  }

  /** The product of two normalised mantissas: at most the exact one, and short of it by less than one part in 2 to
      the 191. */
  lemma ProductBounds(a: seq<Limb>, b: seq<Limb>, r: seq<Limb>, shift: int)
    requires IsProduct(a, b, r, shift) && Normal(b) && (Normal(a) || Zero(a)) && Half() > 0
    ensures (Normal(a) ==> Normal(r)) && (Zero(a) ==> Zero(r)) && (shift == 0 || shift == -1)
    ensures Left(Half()) * (Fraction(a) * Fraction(b)) <= Fraction(r) * Two(shift) <= Fraction(a) * Fraction(b)
  {
    hide Value, BPow, Two, Half, Left;
    Sizes();
    var x, y, half, one := Value(a), Value(b), Half(), One();
    var n := if shift == 0 then x * y else 2 * (x * y);
    assert Value(r) == n / one;
    NotSmall(x, y, half, one, n);
    TruncatedQuotient(n, half, one);
    ScaledFractions(x, y, Value(r), n, half, one, shift);
  }

  lemma NotSmall(x: nat, y: nat, half: nat, one: nat, n: nat)
    requires one == 2 * half && (x == 0 || x >= half) && y >= half
    requires (n == x * y && half * one <= x * y) || n == 2 * (x * y)
    ensures n == 0 || n >= half * one
    ensures (x == 0 <==> n == 0) || half == 0
  {
    if x > 0 {
      Scale(half, x, y);
      Scale(half, y, half);
      Commute(half, y);
      Associate(2, half, half);
      Commute(half, one);
    }
  }

  lemma InReals(q: nat, n: nat, half: nat, one: nat)
    requires q * one <= n && (half - 1) * n <= half * (q * one)
    ensures q as real * one as real <= n as real
    ensures (half as real - 1.0) * n as real <= half as real * (q as real * one as real)
  {
    RealOfProduct(q, one);
    RealOfProduct(half - 1, n);
    RealOfProduct(half, q * one);
  }

  // ---------- Products of numbers ----------

  /** What float_multiply and the sum of the exponents do to the numbers. */
  lemma NumberProduct(a: seq<Limb>, ea: int, b: seq<Limb>, eb: int, r: seq<Limb>, shift: int)
    requires IsProduct(a, b, r, shift) && Normal(b) && (Normal(a) || Zero(a)) && Half() > 0
    ensures (Normal(a) ==> Normal(r)) && (Zero(a) ==> Zero(r))
    ensures Left(Half()) * (Number(a, ea) * Number(b, eb)) <= Number(r, ea + eb + shift)
    ensures Number(r, ea + eb + shift) <= Number(a, ea) * Number(b, eb)
  {
    hide Two, Fraction, Half, IsProduct, Value, Left;
    ProductBounds(a, b, r, shift);
    TwoAdds(ea, eb);
    TwoAdds(ea + eb, shift);
    var f, g, w := Fraction(a) * Fraction(b), Fraction(r) * Two(shift), Two(ea) * Two(eb);
    assert Number(a, ea) * Number(b, eb) == f * w by {
      Regroup(Fraction(a), Two(ea), Fraction(b), Two(eb));
    }
    assert Number(r, ea + eb + shift) == g * w by {
      RMul(Fraction(r), Two(shift), w);
      RMul(w, Two(shift), 1.0);
    }
    TimesWeight(Left(Half()), f, g, w);
  }

  lemma TimesWeight(left: real, f: real, g: real, w: real)
    requires left * f <= g <= f && w >= 0.0
    ensures left * (f * w) <= g * w <= f * w
  {
    RScale(left * f, g, w);
    RScale(g, f, w);
    RMul(left, f, w);
  }

  /** One product of the loop: the lower bounds multiply, and so do the upper ones. */
  lemma BoundsMultiply(left: real, v: real, u: real, r: real, vLow: real, vHigh: real, uLow: real, uHigh: real)
    requires 0.0 <= left && 0.0 <= vLow <= v <= vHigh && 0.0 <= uLow <= left * u && 0.0 <= u <= uHigh
    requires left * (v * u) <= r <= v * u
    ensures vLow * uLow <= r <= vHigh * uHigh
  {
    assert left * (v * u) == v * (left * u) by {
      RMul(left, v, u);
      RMul(v, left, u);
    }
    RScale(vLow, v, uLow);
    RScale(uLow, left * u, v);
    RScale(v, vHigh, u);
    RScale(u, uHigh, vHigh);
  }

  // ---------- Square and multiply ----------

  /** The bounds of the loop: what is left of a number by one truncation, one factor with its truncation, one factor
      at most, and the number that the factors are multiplied to. */
  datatype Course = Course(left: real, low: real, high: real, start: real) {
    ghost predicate Valid() {
      0.0 < left && 0.0 < low && 0.0 < high && 0.0 <= start
    }

    /** `u` is about the `g`-th power of the factor. */
    ghost predicate Factor(u: real, g: nat) {
      RealPower(low, g) <= left * u && 0.0 <= u <= RealPower(high, g)
    }

    /** `v` is about the number with `d` factors multiplied to it. */
    ghost predicate Reached(v: real, d: nat) {
      (start * left) * RealPower(low, d) <= v <= start * RealPower(high, d)
    }
  }

  lemma Multiplied(k: Course, v: real, d: nat, u: real, g: nat, r: real)
    requires k.Valid() && k.Reached(v, d) && k.Factor(u, g) && k.left * (v * u) <= r <= v * u
    ensures k.Reached(r, d + g)
  {
    hide RealPower;
    RealPowerPositive(k.low, d);
    RealPowerPositive(k.low, g);
    RealPowerAdds(k.low, d, g);
    RealPowerAdds(k.high, d, g);
    var base := k.start * k.left;
    RScale(0.0, k.start, k.left);
    RScale(0.0, base, RealPower(k.low, d));
    BoundsMultiply(k.left, v, u, r, base * RealPower(k.low, d), k.start * RealPower(k.high, d), RealPower(k.low, g),
      RealPower(k.high, g));
    RMul(base, RealPower(k.low, d), RealPower(k.low, g));
    RMul(k.start, RealPower(k.high, d), RealPower(k.high, g));
  }

  lemma SquareBounds(left: real, u: real, u2: real, r: real, low: real, low2: real, high: real, high2: real)
    requires 0.0 < left && 0.0 <= low <= left * u && 0.0 <= low2 <= left * u2 && 0.0 <= u <= high && 0.0 <= u2 <= high2
    requires left * (u * u2) <= r <= u * u2
    ensures low * low2 <= left * r && 0.0 <= r <= high * high2
  {
    assert left * (left * (u * u2)) == (left * u) * (left * u2) by {
      Regroup(left, left, u, u2);
      RMul(left, left, u * u2);
    }
    RScale(left * (u * u2), r, left);
    RScale(low, left * u, low2);
    RScale(low2, left * u2, left * u);
    RScale(u, high, u2);
    RScale(u2, high2, high);
    RScale(0.0, u * u2, left);
    RScale(0.0, u, u2);
  }

  lemma Squared(k: Course, u: real, g: nat, r: real)
    requires k.Valid() && k.Factor(u, g) && k.left * (u * u) <= r <= u * u
    ensures k.Factor(r, 2 * g)
  {
    hide RealPower;
    RealPowerPositive(k.low, g);
    RealPowerAdds(k.low, g, g);
    RealPowerAdds(k.high, g, g);
    SquareBounds(k.left, u, u, r, RealPower(k.low, g), RealPower(k.low, g), RealPower(k.high, g), RealPower(k.high, g));
  }

  lemma Halved(t: nat, g: nat)
    ensures t % 2 == 0 ==> (t / 2) * (2 * g) == t * g
    ensures t % 2 == 1 ==> (t / 2) * (2 * g) + g == t * g
  {
    Associate(t / 2, 2, g);
    Distribute(t / 2 * 2, t % 2, g);
  }

  /** The loop that multiplies the mantissa by the factor to the power of `tenpwr`. */
  method TimesPower(mant: array<Limb>, mult: array<Limb>, twopwr0: int, extratwos0: int, tenpwr: nat, ghost k: Course)
    returns (twopwr: int)
    requires mant.Length == mult.Length == LIMBS && mant != mult && Half() > 0 && k.left == Left(Half()) && k.Valid()
    requires Normal(mult[..]) && k.Factor(Number(mult[..], extratwos0), 1)
    requires (Normal(mant[..]) || Zero(mant[..])) && k.Reached(Number(mant[..], twopwr0), 0)
    modifies mant, mult
    ensures k.Reached(Number(mant[..], twopwr), tenpwr)
    ensures (old(Normal(mant[..])) ==> Normal(mant[..])) && (old(Zero(mant[..])) ==> Zero(mant[..]))
  {
    hide RealPower, Number, Half, Left, Value, IsProduct, Course.Factor, Course.Reached;
    twopwr := twopwr0;
    var extratwos, t := extratwos0, tenpwr;
    ghost var d, g := 0, 1;
    while t > 0
      invariant t * g + d == tenpwr
      invariant Normal(mult[..]) && k.Factor(Number(mult[..], extratwos), g)
      invariant (Normal(mant[..]) || Zero(mant[..])) && k.Reached(Number(mant[..], twopwr), d)
      invariant (old(Normal(mant[..])) ==> Normal(mant[..])) && (old(Zero(mant[..])) ==> Zero(mant[..]))
    {
      Halved(t, g);
      if t % 2 == 1 {
        ghost var a := mant[..];
        var shift := Multiply(mant, mult);
        NumberProduct(a, twopwr, mult[..], extratwos, mant[..], shift);
        Multiplied(k, Number(a, twopwr), d, Number(mult[..], extratwos), g,
          Number(mant[..], twopwr + extratwos + shift));
        twopwr := twopwr + (extratwos + shift);
        d := d + g;
      }
      ghost var b := mult[..];
      var shift := Multiply(mult, mult);
      NumberProduct(b, extratwos, b, extratwos, mult[..], shift);
      Squared(k, Number(b, extratwos), g, Number(mult[..], extratwos + extratwos + shift));
      extratwos := extratwos * 2 + shift;
      t := t / 2;
      g := 2 * g;
    }
  }
}
