/**
 From decimal digits to the bits of a mantissa (lib/cpp/floating.cpp, the first loop of `ieee_flconvert`): the digits
 are doubled in place, and what runs over is the next bit.
 */
module DecimalDigits {
  import opened Limbs
  import opened Powers
  import opened DecimalFloat
  import FloatShift

  type Digit = x: int | 0 <= x <= 9

  function Ten(n: nat): (p: nat)
    ensures p > 0
  {
    if n == 0 then 1 else 10 * Ten(n - 1)
  }

  /** The number that digits write, most significant first. */
  function Decimal(s: seq<Digit>): nat {
    if s == [] then 0 else s[0] * Ten(|s| - 1) + Decimal(s[1..])
  }

  /** The same digits after a decimal point. */
  function Point(s: seq<Digit>): real {
    Decimal(s) as real / Ten(|s|) as real
  }

  lemma {:induction false} DecimalBound(s: seq<Digit>)
    ensures Decimal(s) < Ten(|s|)
  {
    if s != [] {
      DecimalBound(s[1..]);
      Scale(s[0], 9, Ten(|s| - 1));
    }
  }

  lemma {:induction false} DecimalSnoc(s: seq<Digit>, d: Digit)
    ensures Decimal(s + [d]) == 10 * Decimal(s) + d
  {
    if s == [] {
      assert Decimal([d][1..]) == 0;
    } else {
      DecimalSnoc(s[1..], d);
      assert (s + [d])[1..] == s[1..] + [d];
      assert Ten(|s|) == 10 * Ten(|s| - 1);
      var p := Ten(|s| - 1);
      Associate(s[0], 10, p);
      Commute(s[0], 10);
      Associate(10, s[0], p);
    }
  }

  // ---------- Doubling ----------

  /** One digit more, on the left. */
  lemma DoubleStep(d: Digit, e: Digit, carry: nat, over: nat, p: nat, was: nat, now: nat)
    requires 2 * was == now + carry * p && 2 * d + carry == 10 * over + e
    ensures 2 * (d * p + was) == (e * p + now) + over * (10 * p)
  {
    Distribute(2 * d, carry, p);
    Distribute(10 * over, e, p);
    Associate(2, d, p);
    Associate(10, over, p);
    Associate(over, 10, p);
    Commute(10, over);
  }

  /** The digits are doubled in place; what runs over is returned. */
  method DoubleDigits(digits: array<Digit>, n: nat) returns (carry: nat)
    requires n <= digits.Length
    modifies digits
    ensures carry <= 1
    ensures 2 * Decimal(old(digits[..n])) == Decimal(digits[..n]) + carry * Ten(n)
  {
    ghost var was := digits[..n];
    var r := n;
    carry := 0;
    assert was[n..] == [] && digits[n..n] == [];
    while r > 0
      invariant r <= n && carry <= 1 && (forall k :: 0 <= k < r ==> digits[k] == was[k])
      invariant 2 * Decimal(was[r..]) == Decimal(digits[r..n]) + carry * Ten(n - r)
    {
      r := r - 1;
      ghost var rest := digits[r + 1..n];
      ghost var before := carry;
      assert digits[r] == was[r];
      var i := 2 * digits[r] + carry;
      if i >= 10 {
        carry := 1;
        i := i - 10;
      } else {
        carry := 0;
      }
      digits[r] := i;
      assert digits[r + 1..n] == rest && digits[r..n] == [i] + rest && was[r..] == [was[r]] + was[r + 1..];
      DoubleStep(was[r], i, before, carry, Ten(n - r - 1), Decimal(was[r + 1..]), Decimal(rest));
    }
    assert was[0..] == was && digits[0..n] == digits[..n];
  }

  /** Zeros at the end are dropped. */
  method DropZeros(digits: array<Digit>, n0: nat) returns (n: nat)
    requires n0 <= digits.Length
    ensures n <= n0 && (n > 0 ==> digits[n - 1] != 0) && Point(digits[..n]) == Point(digits[..n0])
    ensures Ten(n) - Decimal(digits[..n]) <= Ten(n0) - Decimal(digits[..n0])
  {
    n := n0;
    while n > 0 && digits[n - 1] == 0
      invariant n <= n0 && Point(digits[..n]) == Point(digits[..n0])
      invariant Ten(n) - Decimal(digits[..n]) <= Ten(n0) - Decimal(digits[..n0])
    {
      DropZero(digits[..n - 1]);
      assert digits[..n] == digits[..n - 1] + [0];
      n := n - 1;
    }
  }

  lemma DropZero(s: seq<Digit>)
    ensures Point(s + [0]) == Point(s)
    ensures Ten(|s|) - Decimal(s) <= Ten(|s| + 1) - Decimal(s + [0])
  {
    hide Decimal;
    DecimalSnoc(s, 0);
    DecimalBound(s);
    assert Ten(|s| + 1) == 10 * Ten(|s|);
    hide Ten;
    SameQuotient(Decimal(s) as real, Ten(|s|) as real, Decimal(s + [0]) as real, Ten(|s| + 1) as real);
  }

  lemma SameQuotient(x: real, p: real, x2: real, p2: real)
    requires p > 0.0 && p2 == 10.0 * p && x2 == 10.0 * x
    ensures x2 / p2 == x / p
  {
    Divided(x, p);
    Divided(x2, p2);
    EqualQuotients(x / p, x2 / p2, x, p, x2, p2);
  }

  lemma EqualQuotients(q: real, q2: real, x: real, p: real, x2: real, p2: real)
    requires p > 0.0 && p2 == 10.0 * p && x2 == 10.0 * x && q * p == x && q2 * p2 == x2
    ensures q2 == q
  {
    RMul(q, 10.0, p);
    RMul(10.0, q, p);
    Cancel(q, q2, p2);
    Cancel(q2, q, p2);
  }

  /** Doubling the digits doubles what they write after the point, less what runs over. */
  lemma PointDoubled(was: seq<Digit>, now: seq<Digit>, carry: nat)
    requires |was| == |now| && 2 * Decimal(was) == Decimal(now) + carry * Ten(|was|)
    ensures 2.0 * Point(was) == Point(now) + carry as real
  {
    hide Decimal, Ten;
    RealOfProduct(carry, Ten(|was|));
    SumOver(Decimal(was) as real, Decimal(now) as real, carry as real, Ten(|was|) as real);
  }

  lemma SumOver(x: real, y: real, c: real, p: real)
    requires p > 0.0 && 2.0 * x == y + c * p
    ensures 2.0 * (x / p) == y / p + c
  {
    var a, b := x / p, y / p;
    Divided(x, p);
    Divided(y, p);
    assert (2.0 * a) * p == (b + c) * p;
    Cancel(2.0 * a, b + c, p);
    Cancel(b + c, 2.0 * a, p);
  }

  lemma PointBound(s: seq<Digit>)
    ensures 0.0 <= Point(s) < 1.0
    ensures Point(s) == 0.0 <==> Decimal(s) == 0
  {
    DecimalBound(s);
    hide Decimal, Ten;
    Proper(Decimal(s) as real, Ten(|s|) as real);
  }

  lemma Proper(x: real, p: real)
    requires 0.0 <= x < p
    ensures 0.0 <= x / p < 1.0 && (x / p == 0.0 <==> x == 0.0)
  {
    Divided(x, p);
    var q := x / p;
    if q >= 1.0 {
      RScale(1.0, q, p);
    } else if q < 0.0 {
      RScaleStrict(q, 0.0, p);
    }
  }

  // ---------- The bits of the mantissa ----------

  /** The first `b` bits of the mantissa write `n`; the others are clear. */
  ghost predicate Placed(mant: seq<Limb>, b: nat, n: nat) {
    && |mant| == LIMBS && b <= 192 && n < Pow2(b) && Value(mant) == n * Pow2(192 - b)
    && (b < 192 ==> mant[b / 32] % Pow2(32 - b % 32) == 0)
    && (forall k :: b / 32 < k < LIMBS ==> mant[k] == 0)
  }

  lemma BitWeight(b: nat)
    requires b < 192
    ensures Pow2(31 - b % 32) * BPow(5 - b / 32) == Pow2(191 - b) && Pow2(192 - b) == 2 * Pow2(191 - b)
    ensures Pow2(32 - b % 32) == 2 * Pow2(31 - b % 32) && Pow2(b + 1) == 2 * Pow2(b)
  {
    FloatShift.BPowIsPow2(5 - b / 32);
    Pow2Adds(31 - b % 32, 32 * (5 - b / 32));
  }

  /** A limb whose low bits are clear has room for the highest of them, and the ones below stay clear. */
  lemma RoomForBit(x: Limb, bit: nat, over: nat)
    requires bit > 0 && x % (2 * bit) == 0 && BASE == over * (2 * bit)
    ensures x + bit < BASE && x % bit == 0 && (x + bit) % bit == 0
  {
    var q := x / (2 * bit);
    assert x == q * (2 * bit);
    if q >= over {
      Scale(over, q, 2 * bit);
    } else {
      Scale(q + 1, over, 2 * bit);
      Distribute(q, 1, 2 * bit);
    }
    Associate(q, 2, bit);
    Distribute(q * 2, 1, bit);
    DivideBy(x, bit, q * 2, 0);
    DivideBy(x + bit, bit, q * 2 + 1, 0);
  }

  /** The next bit is set or left clear. */
  lemma NextBit(mant: seq<Limb>, b: nat, n: nat, carry: nat)
    requires Placed(mant, b, n) && b < 192 && carry <= 1
    ensures var i, bit := b / 32, Pow2(31 - b % 32);
      mant[i] + bit < BASE && Placed(mant[i := if carry == 1 then mant[i] + bit else mant[i]], b + 1, 2 * n + carry)
  {
    hide Value, BPow, Pow2;
    var i, bit := b / 32, Pow2(31 - b % 32);
    BitWeight(b);
    FloatShift.TwoParts(b % 32);
    RoomForBit(mant[i], bit, Pow2(b % 32));
    AddAt(mant, i, carry * bit);
    assert carry * bit * BPow(5 - i) == carry * Pow2(191 - b) by {
      Associate(carry, bit, BPow(5 - i));
    }
    Associate(2, n, Pow2(191 - b));
    Commute(n, 2);
    Associate(n, 2, Pow2(191 - b));
    Distribute(2 * n, carry, Pow2(191 - b));
    assert mant[i] + carry * bit == if carry == 1 then mant[i] + bit else mant[i];
    assert (b + 1) / 32 == i || (b + 1) / 32 == i + 1;
    if b % 32 == 31 {
      DivideBy(0, Pow2(32), 0, 0);
    } else {
      assert (b + 1) / 32 == i && 32 - (b + 1) % 32 == 31 - b % 32;
    }
  }

  lemma NothingPlaced(mant: seq<Limb>)
    requires |mant| == LIMBS && forall k :: 0 <= k < LIMBS ==> mant[k] == 0
    ensures Placed(mant, 0, 0)
  {
    ZeroValue(mant);
    DivideBy(0, Pow2(32), 0, 0);
  }

  // ---------- The loop ----------

  /** The bits so far and the digits left make up the number, moved up by `e` bits. */
  ghost predicate Balanced(number: real, e: int, n: nat, rest: real) {
    number * Two(e) == n as real + rest
  }

  lemma Doubled(number: real, e: int, n: nat, was: real, now: real, carry: nat)
    requires Balanced(number, e, n, was) && 2.0 * was == now + carry as real
    ensures Balanced(number, e + 1, 2 * n + carry, now)
  {
    TwoUp(e);
    hide Two;
    RMul(number, 2.0, Two(e));
    RMul(2.0, number, Two(e));
    assert number * (2.0 * Two(e)) == 2.0 * (number * Two(e));
  }

  /** The mantissa holds the leading bits of the number: all of it, or all but less than one part in 2 to the 191. */
  ghost predicate Leading(m: seq<Limb>, twopwr: int, number: real) {
    && Half() > 0 && (Normal(m) || Zero(m)) && (Zero(m) <==> number == 0.0)
    && Left(Half()) * number <= Number(m, twopwr) <= number
  }

  /** The state of the loop: `b` bits of `n` found, `e` bits moved. */
  ghost predicate Underway(mant: seq<Limb>, b: nat, n: nat, started: bool, twopwr: int, number: real, rest: real) {
    && Placed(mant, b, n) && Balanced(number, b - twopwr, n, rest)
    && (if started then b > 0 && n >= Pow2(b - 1) else b == 0)
  }

  /** What one bit does to the state. */
  lemma OneBit(mant: seq<Limb>, b: nat, n: nat, started: bool, twopwr: int, number: real, was: real, now: real,
               carry: nat)
    requires Underway(mant, b, n, started, twopwr, number, was) && b < 192 && carry <= 1
      && 2.0 * was == now + carry as real
    ensures var i, bit := b / 32, Pow2(31 - b % 32); mant[i] + bit < BASE
    ensures var i, bit := b / 32, Pow2(31 - b % 32);
      started || carry == 1 ==>
        Underway(mant[i := if carry == 1 then mant[i] + bit else mant[i]], b + 1, 2 * n + carry, true, twopwr,
          number, now)
    ensures !started && carry == 0 ==> Underway(mant, 0, 0, false, twopwr - 1, number, now)
  {
    hide Two, Placed;
    NextBit(mant, b, n, carry);
    Doubled(number, b - twopwr, n, was, now, carry);
    NoBits(mant, b, n);
    if started {
      assert Pow2(b) == 2 * Pow2(b - 1);
    }
    hide Balanced;
    assert b + 1 - twopwr == b - twopwr + 1;
  }

  lemma NoBits(mant: seq<Limb>, b: nat, n: nat)
    requires Placed(mant, b, n)
    ensures b == 0 ==> n == 0
  {
  }

  lemma SizesAsPowers()
    ensures One() == Pow2(192) && Half() == Pow2(191)
  {
    FloatShift.BPowIsPow2(6);
    FloatShift.BPowIsPow2(5);
    WordPowers();
    Pow2Adds(31, 160);
  }

  lemma PlacedValue(mant: seq<Limb>, b: nat, n: nat)
    requires Placed(mant, b, n)
    ensures b <= 192 && Value(mant) as real == n as real * Two(192 - b)
  {
    hide Value, Pow2, Two;
    var p := Pow2(192 - b);
    assert Value(mant) == n * p;
    TwoIsPow2(192 - b);
    hide Placed;
    RealOfProduct(n, p);
  }

  lemma OneAsPower()
    ensures One() as real == Two(192)
  {
    SizesAsPowers();
    TwoIsPow2(192);
  }

  lemma FractionOf(mant: seq<Limb>, b: nat, n: nat)
    requires Placed(mant, b, n)
    ensures b <= 192 && Fraction(mant) * Two(192) == n as real * Two(192 - b)
  {
    hide Value, One, Two, Placed;
    PlacedValue(mant, b, n);
    OneAsPower();
    Divided(Value(mant) as real, One() as real);
  }

  /** What a placed mantissa is worth. */
  lemma NumberOf(mant: seq<Limb>, b: nat, n: nat, twopwr: int)
    requires Placed(mant, b, n)
    ensures Number(mant, twopwr) == n as real * Two(twopwr - b)
  {
    hide Two, Fraction, Placed;
    FractionOf(mant, b, n);
    TwoAdds(192, 0 - b);
    TwoAdds(0 - b, twopwr);
    WorthOf(n as real, Two(192 - b), Two(192), Two(0 - b), Two(twopwr), Two(twopwr - b), Fraction(mant));
  }

  lemma WorthOf(n: real, x: real, one: real, y: real, w: real, yw: real, f: real)
    requires one > 0.0 && x == one * y && yw == y * w && f * one == n * x
    ensures f * w == n * yw
  {
    assert f * one == (n * y) * one by {
      RMul(n, y, one);
      RMul(y, one, 1.0);
    }
    Cancel(f, n * y, one);
    Cancel(n * y, f, one);
    RMul(n, y, w);
  }

  /** The number from its parts. */
  lemma NumberFrom(number: real, e: int, n: nat, rest: real)
    requires Balanced(number, e, n, rest)
    ensures number == (n as real + rest) * Two(0 - e)
  {
    TwoAdds(e, 0 - e);
    TwoZero();
    hide Two;
    RMul(number, Two(e), Two(0 - e));
  }

  lemma CloseEnough(n: real, rest: real, half: real, w: real, left: real)
    requires half > 0.0 && w > 0.0 && left * half == half - 1.0 && n >= 0.0 && 0.0 <= rest < 1.0
      && (rest == 0.0 || n >= half)
    ensures left * ((n + rest) * w) <= n * w <= (n + rest) * w
  {
    var x := n + rest;
    RScale(n, x, w);
    LeftOver(n, rest, half, x, left);
    RScale(left * x, n, w);
    RMul(left, x, w);
  }

  lemma LeftOver(n: real, rest: real, half: real, x: real, left: real)
    requires half > 0.0 && left * half == half - 1.0 && n >= 0.0 && 0.0 <= rest < 1.0 && (rest == 0.0 || n >= half)
      && x == n + rest
    ensures left * x <= n
  {
    var hx, hn, hr, lx := half * x, half * n, half * rest, left * x;
    assert hx == hn + hr;
    assert hr <= x by {
      RScale(rest, 1.0, half);
    }
    assert lx * half == hx - x by {
      RMul(left, x, half);
      RMul(left, half, x);
    }
    Cancel(lx, n, half);
  }

  /** A mantissa whose first bit is set is normalised. */
  lemma FirstBitSet(mant: seq<Limb>, b: nat, n: nat)
    requires Placed(mant, b, n) && b > 0 && n >= Pow2(b - 1)
    ensures Normal(mant)
  {
    hide Value;
    SizesAsPowers();
    Pow2Adds(b - 1, 192 - b);
    hide Half, Pow2;
    Scale(Pow2(b - 1), n, Pow2(192 - b));
  }

  lemma LeadingSome(mant: seq<Limb>, twopwr: int, n: nat, rest: real, w: real, number: real)
    requires Normal(mant) && n > 0 && 0.0 <= rest < 1.0 && w > 0.0 && (rest == 0.0 || n >= Half())
    requires number == (n as real + rest) * w && Number(mant, twopwr) == n as real * w
    ensures Leading(mant, twopwr, number)
  {
    Sizes();
    var half := Half();
    hide Half, Number, Value;
    LeftTimes(half as real);
    CloseEnough(n as real, rest, half as real, w, Left(half));
    Positive(n as real + rest, w);
  }

  lemma LeadingNone(mant: seq<Limb>, twopwr: int, w: real, number: real)
    requires Zero(mant) && w > 0.0 && number == (0.0 + 0.0) * w && Number(mant, twopwr) == 0.0 * w
    ensures Leading(mant, twopwr, number)
  {
    Sizes();
    hide Half, Number, Value, Left;
    assert number == 0.0 && Number(mant, twopwr) == 0.0;
    assert Left(Half()) * 0.0 == 0.0;
  }

  /** When the digits or the bits are used up, the mantissa holds the leading bits. */
  lemma LoopEnds(mant: seq<Limb>, b: nat, n: nat, started: bool, twopwr: int, number: real, rest: real)
    requires Underway(mant, b, n, started, twopwr, number, rest) && 0.0 <= rest < 1.0 && (rest == 0.0 || b == 192)
    ensures Leading(mant, twopwr, number)
  {
    hide Two, Number, Balanced, Left, Leading, Value, Half, Placed;
    NumberFrom(number, b - twopwr, n, rest);
    NumberOf(mant, b, n, twopwr);
    var w := Two(twopwr - b);
    if started {
      FirstBitSet(mant, b, n);
      BigEnough(mant, b, n);
      LeadingSome(mant, twopwr, n, rest, w, number);
    } else {
      NoBits(mant, b, n);
      NothingFound(mant);
      LeadingNone(mant, twopwr, w, number);
    }
  }

  lemma NothingFound(mant: seq<Limb>)
    requires Placed(mant, 0, 0)
    ensures Zero(mant)
  {
  }

  lemma BigEnough(mant: seq<Limb>, b: nat, n: nat)
    requires Placed(mant, b, n) && b > 0 && n >= Pow2(b - 1)
    ensures n > 0 && (b == 192 ==> n >= Half())
  {
    SizesAsPowers();
  }

  /** The next bit of the mantissa, if one has been set or is to be set now; otherwise the number is moved up. */
  method Emit(mant: array<Limb>, m: nat, bit: nat, carry: nat, started: bool, twopwr: int,
              ghost b: nat, ghost n: nat, ghost number: real, ghost was: real, ghost now: real)
    returns (m': nat, bit': nat, started': bool, twopwr': int, ghost b': nat, ghost n': nat)
    requires mant.Length == LIMBS && b < 192 && m == b / 32 && bit == Pow2(31 - b % 32) && carry <= 1
    requires Underway(mant[..], b, n, started, twopwr, number, was) && 2.0 * was == now + carry as real
    modifies mant
    ensures b' <= 192 && m' == b' / 32 && bit' == Pow2(31 - b' % 32)
    ensures Underway(mant[..], b', n', started', twopwr', number, now)
    ensures if started || carry == 1 then started' && b' == b + 1 else !started' && b' == b == 0
  {
    hide Pow2, Underway;
    ghost var before := mant[..];
    OneBit(before, b, n, started, twopwr, number, was, now, carry);
    m', bit', started', twopwr', b', n' := m, bit, started, twopwr, b, n;
    if carry == 1 {
      mant[m] := mant[m] + bit;
      started' := true;
    }
    if started' {
      assert mant[..] == before[m := if carry == 1 then before[m] + bit else before[m]];
      NextMask(b);
      if bit == 1 {
        bit' := TOP;
        m' := m + 1;
      } else {
        bit' := bit / 2;
      }
      b', n' := b + 1, 2 * n + carry;
    } else {
      twopwr' := twopwr - 1;
      NotStarted(before, b, n, twopwr, number, was);
      n' := 0;
    }
  }

  lemma NoBitsLeft()
    ensures Pow2(0) == 1
  {
  }

  lemma OneBitLess(n: nat)
    requires n > 0
    ensures Pow2(n) == 2 * Pow2(n - 1)
  {
  }

  lemma NextMask(b: nat)
    ensures Pow2(31 - b % 32) == 1 <==> b % 32 == 31
    ensures b % 32 == 31 ==> Pow2(31 - (b + 1) % 32) == TOP && (b + 1) / 32 == b / 32 + 1
    ensures b % 32 != 31 ==> Pow2(31 - (b + 1) % 32) == Pow2(31 - b % 32) / 2 && (b + 1) / 32 == b / 32
  {
    hide Pow2;
    WordPowers();
    NoBitsLeft();
    var n := 31 - b % 32;
    if n > 0 {
      OneBitLess(n);
      assert 31 - (b + 1) % 32 == n - 1;
    }
  }

  lemma NotStarted(mant: seq<Limb>, b: nat, n: nat, twopwr: int, number: real, was: real)
    requires Underway(mant, b, n, false, twopwr, number, was)
    ensures b == 0
  {
  }

  lemma LastDigitCounts(s: seq<Digit>)
    requires s != [] && s[|s| - 1] != 0
    ensures Decimal(s) > 0
  {
    assert s == s[..|s| - 1] + [s[|s| - 1]];
    DecimalSnoc(s[..|s| - 1], s[|s| - 1]);
  }

  /** The first bit of a mantissa that is all clear. */
  lemma Starts(mant: seq<Limb>, number: real)
    requires |mant| == LIMBS && forall k :: 0 <= k < LIMBS ==> mant[k] == 0
    ensures Underway(mant, 0, 0, false, 0, number, number) && Pow2(31) == TOP
  {
    NothingPlaced(mant);
    TwoZero();
    WordPowers();
    hide Two, Placed;
  }

  /** Double the digits; the digits left, doubled, are the new ones and what ran over. */
  method NextCarry(digits: array<Digit>, n: nat) returns (carry: nat)
    requires 0 < n <= digits.Length && digits[n - 1] != 0
    modifies digits
    ensures carry <= 1 && 2.0 * old(Point(digits[..n])) == Point(digits[..n]) + carry as real
    ensures carry == 0 ==> Decimal(digits[..n]) > old(Decimal(digits[..n]))
  {
    hide Decimal, Ten;
    ghost var was := digits[..n];
    LastDigitCounts(was);
    carry := DoubleDigits(digits, n);
    PointDoubled(was, digits[..n], carry);
  }

  method ClearAll(mant: array<Limb>)
    requires mant.Length == LIMBS
    modifies mant
    ensures forall k :: 0 <= k < LIMBS ==> mant[k] == 0
  {
    var m := 0;
    while m < LIMBS
      invariant m <= LIMBS && forall k :: 0 <= k < m ==> mant[k] == 0
    {
      mant[m] := 0;
      m := m + 1;
    }
  }

  /** The digits after the decimal point as bits: the mantissa holds the leading ones. */
  method ToBits(digits: array<Digit>, count: nat, mant: array<Limb>) returns (twopwr: int)
    requires count <= digits.Length && mant.Length == LIMBS
    modifies digits, mant
    ensures Leading(mant[..], twopwr, old(Point(digits[..count])))
  {
    ghost var number := Point(digits[..count]);
    ClearAll(mant);
    assert number == Point(digits[..count]);
    Starts(mant[..], number);
    hide Pow2, Underway, Leading, Point, Decimal, Ten;
    var n, m, bit, started := count, 0, TOP, false;
    twopwr := 0;
    ghost var b, k := 0, 0;
    while m < LIMBS
      invariant n <= digits.Length && b <= 192 && m == b / 32 && bit == Pow2(31 - b % 32)
      invariant Underway(mant[..], b, k, started, twopwr, number, Point(digits[..n]))
      decreases 192 - b, Ten(n) - Decimal(digits[..n])
    {
      DecimalBound(digits[..n]);
      n := DropZeros(digits, n);
      if n == 0 {
        break;
      }
      ghost var was := Point(digits[..n]);
      DecimalBound(digits[..n]);
      var carry := NextCarry(digits, n);
      DecimalBound(digits[..n]);
      m, bit, started, twopwr, b, k :=
        Emit(mant, m, bit, carry, started, twopwr, b, k, number, was, Point(digits[..n]));
    }
    PointBound(digits[..n]);
    NoDigits(digits[..n]);
    LoopEnds(mant[..], b, k, started, twopwr, number, Point(digits[..n]));
  }

  lemma NoDigits(s: seq<Digit>)
    ensures s == [] ==> Point(s) == 0.0
  {
    PointBound(s);
  }
}
