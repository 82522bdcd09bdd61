/**
 Reading a decimal constant (lib/cpp/floating.cpp, the first part of `ieee_flconvert` and `read_exponent`), and the
 conversion of the whole text.

 Only the first 52 digits from the first one that is not zero are kept; the power of ten is counted while reading, so
 that the number is 0.ddd times that power.
 */
module DecimalScan {
  import opened Common
  import opened Limbs
  import opened DecimalFloat
  import opened DecimalDigits
  import opened DecimalConvert

  const MANT_DIGITS: nat := 52
  const EXPONENT_MAX: nat := 5000

  // ---------- What a constant means ----------

  predicate IsDecimal(c: char) {
    '0' <= c <= '9'
  }

  function DigitOf(c: char): Digit
    requires IsDecimal(c)
  {
    c as int - '0' as int
  }

  /** Digits, underscores and at most one point. */
  predicate IsSignificand(u: string) {
    u == [] || (
      var v, c := u[..|u| - 1], u[|u| - 1];
      IsSignificand(v) && (IsDecimal(c) || c == '_' || (c == '.' && '.' !in v)))
  }

  function DigitsOf(u: string): seq<Digit> {
    if u == [] then []
    else
      var v, c := u[..|u| - 1], u[|u| - 1];
      DigitsOf(v) + if IsDecimal(c) then [DigitOf(c)] else []
  }

  /** How many digits stand before the point. */
  function BeforePoint(u: string): nat {
    if u == [] then 0
    else
      var v, c := u[..|u| - 1], u[|u| - 1];
      BeforePoint(v) + if IsDecimal(c) && '.' !in v then 1 else 0
  }

  predicate IsExponent(u: string) {
    forall i :: 0 <= i < |u| ==> IsDecimal(u[i]) || u[i] == '_'
  }

  function ExponentNumber(u: string): nat {
    if u == [] then 0
    else
      var v, c := u[..|u| - 1], u[|u| - 1];
      if IsDecimal(c) then 10 * ExponentNumber(v) + DigitOf(c) else ExponentNumber(v)
  }

  /** Where the significand ends: at an E, or where the text does. */
  function SignificandEnd(s: string, i: nat := 0): (e: nat)
    requires i <= |s|
    ensures i <= e <= |s| && (e < |s| ==> s[e] == 'E' || s[e] == 'e')
    decreases |s| - i
  {
    if i == |s| || s[i] == 'E' || s[i] == 'e' then i else SignificandEnd(s, i + 1)
  }

  predicate HasSign(u: string) {
    u != [] && (u[0] == '+' || u[0] == '-')
  }

  function Unsigned(u: string): string {
    if HasSign(u) then u[1..] else u
  }

  function Clipped(n: nat): nat {
    if n > EXPONENT_MAX then EXPONENT_MAX else n
  }

  /** The exponent that follows the E. */
  function ExponentValue(u: string): int {
    var n := ExponentNumber(Unsigned(u));
    if u != [] && u[0] == '-' then 0 - n else n
  }

  /** What is read of it: clipped to 5000. */
  function ClippedValue(u: string): int {
    var n := Clipped(ExponentNumber(Unsigned(u)));
    if u != [] && u[0] == '-' then 0 - n else n
  }

  predicate IsConstant(s: string) {
    var e := SignificandEnd(s);
    IsSignificand(s[..e]) && (e < |s| ==> IsExponent(Unsigned(s[e + 1..])))
  }

  function ExponentOf(s: string): int {
    var e := SignificandEnd(s);
    if e < |s| then ExponentValue(s[e + 1..]) else 0
  }

  function ExponentRead(s: string): int {
    var e := SignificandEnd(s);
    if e < |s| then ClippedValue(s[e + 1..]) else 0
  }

  /** The number a constant writes: all its digits after a point, times ten to the number of them before its own
      point. */
  function ConstantValue(s: string): real {
    var u := s[..SignificandEnd(s)];
    Meant(DigitsOf(u), BeforePoint(u) + ExponentOf(s))
  }

  /** The number it is read as, with the clipped exponent. */
  function ReadValue(s: string): real {
    var u := s[..SignificandEnd(s)];
    Meant(DigitsOf(u), BeforePoint(u) + ExponentRead(s))
  }

  /** The power of ten when the number is written 0.ddd from its first digit that is not zero on. */
  function ScaleOf(s: string): int {
    var u := s[..SignificandEnd(s)];
    BeforePoint(u) - Zeros(DigitsOf(u)) + ExponentRead(s)
  }

  // ---------- Leading zeros ----------

  function Zeros(ds: seq<Digit>): (z: nat)
    ensures z <= |ds|
  {
    if ds == [] || ds[0] != 0 then 0 else 1 + Zeros(ds[1..])
  }

  lemma {:induction false} ZerosSnoc(ds: seq<Digit>, d: Digit)
    ensures Zeros(ds + [d]) == if Zeros(ds) == |ds| && d == 0 then |ds| + 1 else Zeros(ds)
  {
    if ds == [] {
      assert ([] + [d])[1..] == [];
    } else {
      ZerosSnoc(ds[1..], d);
      assert (ds + [d])[1..] == ds[1..] + [d];
    }
  }

  lemma {:induction false} AfterZeros(ds: seq<Digit>)
    ensures Zeros(ds) < |ds| ==> ds[Zeros(ds)] != 0
  {
    if ds != [] && ds[0] == 0 {
      AfterZeros(ds[1..]);
    }
  }

  lemma TenUp(t: int)
    ensures TenPower(t + 1) == 10.0 * TenPower(t)
  {
    if t < 0 {
      var tenth := 1.0 / 10.0;
      assert RealPower(tenth, 0 - t) == tenth * RealPower(tenth, 0 - t - 1);
      assert RealPower(tenth, 0) == 1.0 == RealPower(10.0, 0);
    }
  }

  lemma PointTimes(s: seq<Digit>)
    ensures Point(s) * Ten(|s|) as real == Decimal(s) as real
  {
    hide Decimal, Ten;
    Divided(Decimal(s) as real, Ten(|s|) as real);
  }

  lemma TenTimes(n: nat)
    ensures Ten(n + 1) as real == 10.0 * Ten(n) as real
  {
    RealOfProduct(10, Ten(n));
  }

  lemma {:induction false} TenPositive(t: int)
    ensures TenPower(t) > 0.0
  {
    RealPowerPositive(10.0, Size(t));
    RealPowerPositive(1.0 / 10.0, Size(t));
  }

  lemma ZeroFirst(s: seq<Digit>, t: int)
    requires s != [] && s[0] == 0
    ensures Meant(s, t) == Meant(s[1..], t - 1)
  {
    hide Decimal, Ten, TenPower, Point;
    TenUp(t - 1);
    SameDecimal(s);
    PointTimes(s);
    PointTimes(s[1..]);
    TenTimes(|s| - 1);
    assert |s[1..]| == |s| - 1;
    TenthOf(Point(s), Point(s[1..]), Ten(|s| - 1) as real, Ten(|s|) as real, Decimal(s) as real, TenPower(t - 1),
      TenPower(t));
  }

  lemma SameDecimal(s: seq<Digit>)
    requires s != [] && s[0] == 0
    ensures Decimal(s) == Decimal(s[1..])
  {
  }

  lemma TenthOf(q: real, q2: real, p: real, ten: real, x: real, w: real, w10: real)
    requires p > 0.0 && ten == 10.0 * p && q * ten == x && q2 * p == x && w10 == 10.0 * w
    ensures q * w10 == q2 * w
  {
    TenfoldIs(q, p, ten);
    Cancel(10.0 * q, q2, p);
    Cancel(q2, 10.0 * q, p);
    TenfoldIs(q, w, w10);
  }

  lemma TenfoldIs(q: real, p: real, ten: real)
    requires ten == 10.0 * p
    ensures q * ten == (10.0 * q) * p
  {
    RMul(q, 10.0, p);
    RMul(10.0, q, p);
  }

  lemma {:induction false} WithoutZeros(ds: seq<Digit>, t: int)
    ensures Meant(ds, t) == Meant(ds[Zeros(ds)..], t - Zeros(ds))
  {
    if ds == [] || ds[0] != 0 {
      assert ds[0..] == ds;
    } else {
      ZeroFirst(ds, t);
      WithoutZeros(ds[1..], t - 1);
      assert ds[1..][Zeros(ds[1..])..] == ds[Zeros(ds)..];
    }
  }

  // ---------- Digits that are not kept ----------

  lemma {:induction false} TenInverse(n: nat)
    ensures TenPower(0 - n) * Ten(n) as real == 1.0
  {
    if n > 0 {
      TenInverse(n - 1);
      TenUp(0 - n);
      var w, p := TenPower(0 - n), Ten(n - 1) as real;
      assert TenPower(0 - (n - 1)) == 10.0 * w;
      RMul(w, 10.0, p);
    }
  }

  lemma PointSnoc(s: seq<Digit>, d: Digit)
    ensures Point(s + [d]) == Point(s) + d as real * TenPower(0 - |s| - 1)
  {
    hide Decimal, Ten, TenPower, Point;
    DecimalSnoc(s, d);
    TenTimes(|s|);
    TenInverse(|s| + 1);
    PointTimes(s);
    PointTimes(s + [d]);
    assert Decimal(s + [d]) as real == 10.0 * Decimal(s) as real + d as real by {
      RealOfProduct(10, Decimal(s));
    }
    OneDigit(Point(s), Point(s + [d]), d as real, TenPower(0 - |s| - 1), Ten(|s|) as real, Decimal(s) as real);
  }

  lemma OneDigit(q: real, q2: real, d: real, w: real, p: real, x: real)
    requires p > 0.0 && q * p == x && q2 * (10.0 * p) == 10.0 * x + d && w * (10.0 * p) == 1.0
    ensures q2 == q + d * w
  {
    var y := q + d * w;
    assert y * (10.0 * p) == 10.0 * x + d by {
      RMul(q, 10.0, p);
      RMul(10.0, q, p);
      RMul(d, w, 10.0 * p);
    }
    Cancel(q2, y, 10.0 * p);
    Cancel(y, q2, 10.0 * p);
  }

  /** Cutting digits off takes away less than one of the last place left. */
  lemma {:induction false} CutOff(s: seq<Digit>, k: nat)
    requires k <= |s|
    ensures Point(s[..k]) <= Point(s) <= Point(s[..k]) + TenPower(0 - k) - TenPower(0 - |s|)
    decreases |s|
  {
    hide Point, TenPower;
    if k == |s| {
      assert s[..k] == s;
    } else {
      var u, d := s[..|s| - 1], s[|s| - 1];
      CutOff(u, k);
      assert u[..k] == s[..k] && s == u + [d];
      PointSnoc(u, d);
      TenUp(0 - |s|);
      TenPositive(0 - |s|);
      assert 0 - |u| - 1 == 0 - |s| && 0 - |s| + 1 == 0 - |u|;
      CutOne(Point(s[..k]), Point(u), Point(s), d as real, TenPower(0 - |s|), TenPower(0 - k), TenPower(0 - |u|));
    }
  }

  lemma CutOne(cut: real, x: real, y: real, d: real, w: real, place: real, last: real)
    requires cut <= x <= cut + place - last && y == x + d * w && 0.0 <= d <= 9.0 && w > 0.0 && last == 10.0 * w
    ensures cut <= y <= cut + place - w
  {
    RScale(0.0, d, w);
    RScale(d, 9.0, w);
  }

  /** Digits that begin with one other than zero write at least a tenth. */
  lemma AtLeastTenth(s: seq<Digit>)
    requires s != [] && s[0] != 0
    ensures Point(s) * 10.0 >= 1.0
  {
    CutOff(s, 1);
    var first := s[..1];
    assert first == [] + [s[0]];
    PointSnoc([], s[0]);
    TenPositive(0 - |s|);
    PointBound([]);
    TenInverse(1);
    hide Point;
    assert Ten(1) == 10 * Ten(0) == 10;
    RScale(1.0, s[0] as real, TenPower(-1));
  }

  /** One part in ten to the 51. */
  function Fine(): real {
    TenPower(-51)
  }

  /** The digits that are kept write the number, or all of it but less than one part in ten to the 51. */
  lemma KeptIsClose(s: seq<Digit>, k: nat, t: int)
    requires (s != [] ==> s[0] != 0) && k == if |s| < MANT_DIGITS then |s| else MANT_DIGITS
    ensures Meant(s[..k], t) <= Meant(s, t)
    ensures |s| <= MANT_DIGITS ==> s[..k] == s
    ensures Meant(s, t) - Meant(s[..k], t) <= Fine() * Meant(s, t)
    ensures s[..k] == [] || Point(s[..k]) > 0.0
  {
    hide Point, TenPower;
    TenPositive(t);
    if s == [] {
      NothingKept(t);
    } else {
      assert s[..k][0] == s[0];
      AtLeastTenth(s[..k]);
      TenPositive(-52);
      TenUp(-52);
      CutAt(s, k);
      Closeness(Point(s), Point(s[..k]), TenPower(-52), TenPower(t));
    }
  }

  lemma NothingKept(t: int)
    ensures Meant([], t) == 0.0
  {
    PointBound([]);
  }

  lemma CutAt(s: seq<Digit>, k: nat)
    requires k == if |s| < MANT_DIGITS then |s| else MANT_DIGITS
    ensures Point(s[..k]) <= Point(s) <= Point(s[..k]) + TenPower(-52)
    ensures |s| <= MANT_DIGITS ==> s[..k] == s
  {
    hide Point, TenPower;
    TenPositive(-52);
    if k == |s| {
      assert s[..k] == s;
    } else {
      CutOff(s, k);
      TenPositive(0 - |s|);
    }
  }

  lemma Closeness(x: real, y: real, u: real, w: real)
    requires y <= x <= y + u && y * 10.0 >= 1.0 && w > 0.0 && u > 0.0
    ensures y * w <= x * w && x * w - y * w <= (10.0 * u) * (x * w)
  {
    RScale(y, x, w);
    RScale(1.0, x * 10.0, u);
    assert u <= (x * 10.0) * u;
    RScale(x - y, (x * 10.0) * u, w);
    assert (x - y) * w == x * w - y * w;
    assert ((x * 10.0) * u) * w == (10.0 * u) * (x * w) by {
      RMul(x, 10.0, u);
      RMul(x, 10.0 * u, w);
      RMul(10.0 * u, x, w);
    }
  }

  // ---------- Reading ----------

  /** What the first loop has kept of the text `u`. */
  ghost predicate Scanned(u: string, digits: seq<Digit>, count: nat, tenpwr: int, started: bool, seendot: bool) {
    var ds := DigitsOf(u);
    var z := Zeros(ds);
    && IsSignificand(u) && |digits| == MANT_DIGITS
    && count == (if |ds| - z < MANT_DIGITS then |ds| - z else MANT_DIGITS)
    && digits[..count] == ds[z..][..count]
    && tenpwr == BeforePoint(u) - z && (started <==> z < |ds|) && (seendot <==> '.' in u)
  }

  lemma {:induction false} SignificandPrefix(u: string, k: nat)
    requires k <= |u| && IsSignificand(u)
    ensures IsSignificand(u[..k])
    decreases |u|
  {
    if k == |u| {
      assert u[..k] == u;
    } else {
      SignificandPrefix(u[..|u| - 1], k);
      assert u[..|u| - 1][..k] == u[..k];
    }
  }

  /** One more character that is not a digit. */
  lemma ScannedOther(u: string, c: char, digits: seq<Digit>, count: nat, tenpwr: int, started: bool, seendot: bool)
    requires Scanned(u, digits, count, tenpwr, started, seendot) && (c == '_' || (c == '.' && !seendot))
    ensures Scanned(u + [c], digits, count, tenpwr, started, seendot || c == '.')
  {
    assert (u + [c])[..|u|] == u;
    assert DigitsOf(u + [c]) == DigitsOf(u) + [] == DigitsOf(u);
  }

  lemma OneDigitMore(u: string, c: char)
    requires IsSignificand(u) && IsDecimal(c)
    ensures IsSignificand(u + [c]) && DigitsOf(u + [c]) == DigitsOf(u) + [DigitOf(c)]
    ensures BeforePoint(u + [c]) == BeforePoint(u) + (if '.' in u then 0 else 1) && ('.' in u + [c] <==> '.' in u)
  {
    assert (u + [c])[..|u|] == u;
  }

  lemma ScannedDigit(u: string, c: char, was: seq<Digit>, now: seq<Digit>, count: nat, count': nat, tenpwr: int,
                     tenpwr': int, started: bool, seendot: bool)
    requires Scanned(u, was, count, tenpwr, started, seendot) && IsDecimal(c) && |now| == MANT_DIGITS
    requires c == '0' && !started ==>
      now == was && count' == count && tenpwr' == (if seendot then tenpwr - 1 else tenpwr)
    requires !(c == '0' && !started) ==> count' == (if count < MANT_DIGITS then count + 1 else count)
    requires !(c == '0' && !started) ==> now == (if count < MANT_DIGITS then was[count := DigitOf(c)] else was)
    requires !(c == '0' && !started) ==> tenpwr' == (if seendot then tenpwr else tenpwr + 1)
    ensures Scanned(u + [c], now, count', tenpwr', started || c != '0', seendot)
  {
    hide DigitsOf, BeforePoint, IsSignificand, Zeros;
    OneDigitMore(u, c);
    ZerosSnoc(DigitsOf(u), DigitOf(c));
    if !(c == '0' && !started) {
      KeptDigits(DigitsOf(u), DigitOf(c), Zeros(DigitsOf(u)), was, now, count, count');
    }
  }

  lemma KeptDigits(ds: seq<Digit>, d: Digit, z: nat, was: seq<Digit>, now: seq<Digit>, count: nat, count': nat)
    requires z <= |ds| && |was| == MANT_DIGITS && count == (if |ds| - z < MANT_DIGITS then |ds| - z else MANT_DIGITS)
    requires was[..count] == ds[z..][..count]
    requires count' == (if count < MANT_DIGITS then count + 1 else count)
    requires now == (if count < MANT_DIGITS then was[count := d] else was)
    ensures count' == (if |ds + [d]| - z < MANT_DIGITS then |ds + [d]| - z else MANT_DIGITS)
    ensures now[..count'] == (ds + [d])[z..][..count']
  {
    assert (ds + [d])[z..] == ds[z..] + [d];
    if count < MANT_DIGITS {
      assert now[..count'] == was[..count] + [d];
    }
  }

  method ScanDigit(c: char, digits: array<Digit>, count: nat, tenpwr: int, started: bool, seendot: bool,
                   ghost u: string)
    returns (count': nat, tenpwr': int, started': bool)
    requires digits.Length == MANT_DIGITS && IsDecimal(c) && Scanned(u, digits[..], count, tenpwr, started, seendot)
    modifies digits
    ensures Scanned(u + [c], digits[..], count', tenpwr', started', seendot)
  {
    ghost var was := digits[..];
    count', tenpwr', started' := count, tenpwr, started;
    if c == '0' && !started {
      if seendot {
        tenpwr' := tenpwr - 1;
      }
    } else {
      started' := true;
      if count < MANT_DIGITS {
        digits[count] := DigitOf(c);
        count' := count + 1;
      }
      if !seendot {
        tenpwr' := tenpwr + 1;
      }
    }
    assert digits[..] == if count' > count then was[count := DigitOf(c)] else was;
    hide Scanned;
    ScannedDigit(u, c, was, digits[..], count, count', tenpwr, tenpwr', started, seendot);
  }

  lemma NothingScanned(digits: seq<Digit>)
    requires |digits| == MANT_DIGITS
    ensures Scanned([], digits, 0, 0, false, false)
  {
  }

  lemma ScannedSo(u: string, digits: seq<Digit>, count: nat, tenpwr: int, started: bool, seendot: bool)
    requires Scanned(u, digits, count, tenpwr, started, seendot)
    ensures IsSignificand(u) && (seendot <==> '.' in u)
  {
  }

  lemma EndFurther(s: string, i: nat)
    requires i < |s| && s[i] != 'E' && s[i] != 'e'
    ensures SignificandEnd(s, i) == SignificandEnd(s, i + 1)
  {
  }

  lemma EndHere(s: string, i: nat)
    requires i <= |s| && (i < |s| ==> s[i] == 'E' || s[i] == 'e')
    ensures SignificandEnd(s, i) == i
  {
  }

  /** The first loop: the significand, up to an E or the end. */
  method ScanSignificand(s: string, digits: array<Digit>) returns (ok: bool, count: nat, tenpwr: int, next: nat)
    requires digits.Length == MANT_DIGITS
    modifies digits
    ensures ok <==> IsSignificand(s[..SignificandEnd(s)])
    ensures ok ==>
      next == SignificandEnd(s)
      && exists started, seendot :: Scanned(s[..next], digits[..], count, tenpwr, started, seendot)
  {
    hide Scanned, IsSignificand, SignificandEnd;
    var started, seendot := false, false;
    count, tenpwr, next := 0, 0, 0;
    ghost var end := SignificandEnd(s);
    assert s[..0] == [];
    NothingScanned(digits[..]);
    while next < |s| && s[next] != 'E' && s[next] != 'e'
      invariant next <= end && SignificandEnd(s, next) == end
      invariant Scanned(s[..next], digits[..], count, tenpwr, started, seendot)
    {
      ghost var u := s[..next];
      var c := s[next];
      assert s[..next + 1] == u + [c];
      EndFurther(s, next);
      if c == '.' && !seendot {
        ScannedOther(u, c, digits[..], count, tenpwr, started, seendot);
        seendot := true;
      } else if IsDecimal(c) {
        count, tenpwr, started := ScanDigit(c, digits, count, tenpwr, started, seendot, u);
      } else if c == '_' {
        ScannedOther(u, c, digits[..], count, tenpwr, started, seendot);
      } else {
        ScannedSo(u, digits[..], count, tenpwr, started, seendot);
        NotSignificand(s[..end], u, c);
        return false, count, tenpwr, next;
      }
      next := next + 1;
    }
    EndHere(s, next);
    ScannedSo(s[..next], digits[..], count, tenpwr, started, seendot);
    ok := true;
  }

  lemma NotSignificand(t: string, u: string, c: char)
    requires |u| < |t| && u + [c] == t[..|u| + 1] && !IsDecimal(c) && c != '_' && (c == '.' ==> '.' in u)
    ensures !IsSignificand(t)
  {
    assert (u + [c])[..|u|] == u;
    if IsSignificand(t) {
      SignificandPrefix(t, |u| + 1);
    }
  }

  lemma ClippedStep(n: nat, d: Digit)
    ensures Clipped(10 * Clipped(n) + d) == Clipped(10 * n + d)
  {
  }

  /** `read_exponent`; None for its error. */
  method ReadExponent(u: string) returns (e: Option<int>)
    ensures e == if IsExponent(Unsigned(u)) then Some(ClippedValue(u)) else None
  {
    var k, neg, n := 0, false, 0;
    if u != [] && u[0] == '+' {
      k := 1;
    } else if u != [] && u[0] == '-' {
      neg, k := true, 1;
    }
    ghost var first, rest := k, Unsigned(u);
    assert rest == u[first..];
    assert rest[..0] == [];
    while k < |u|
      invariant first <= k <= |u|
      invariant n == Clipped(ExponentNumber(rest[..k - first])) && IsExponent(rest[..k - first])
    {
      ghost var v := rest[..k - first];
      var c := u[k];
      assert rest[..k - first + 1] == v + [c] && (v + [c])[..|v|] == v;
      if IsDecimal(c) {
        ClippedStep(ExponentNumber(v), DigitOf(c));
        n := n * 10 + DigitOf(c);
        if n > EXPONENT_MAX {
          n := EXPONENT_MAX;
        }
      } else if c != '_' {
        assert rest[k - first] == c;
        return None;
      }
      k := k + 1;
    }
    assert rest[..k - first] == rest;
    e := Some(if neg then 0 - n else n);
  }

  /** The digits and the power of ten that a constant is read to. */
  method ReadConstant(s: string, digits: array<Digit>) returns (ok: bool, count: nat, tenpwr: int)
    requires digits.Length == MANT_DIGITS
    modifies digits
    ensures ok <==> IsConstant(s)
    ensures ok ==> count <= MANT_DIGITS && tenpwr == ScaleOf(s) && KeptOf(s, digits[..count], tenpwr)
    ensures ReadValue(s) == ConstantValue(s) <==> WellScaled(s)
  {
    ReadIsMeant(s);
    hide ReadValue, ConstantValue, WellScaled, KeptOf;
    var next;
    ok, count, tenpwr, next := ScanSignificand(s, digits);
    if !ok {
      return;
    }
    ghost var started, seendot :| Scanned(s[..next], digits[..], count, tenpwr, started, seendot);
    if next < |s| {
      var e := ReadExponent(s[next + 1..]);
      if e.None? {
        return false, count, tenpwr;
      }
      tenpwr := tenpwr + e.value;
    }
    ScannedIsKept(s, s[..next], digits[..], count, tenpwr - ExponentRead(s), started, seendot);
  }

  /** What is kept of a constant: the value it writes, cut off after 52 digits. */
  ghost predicate KeptOf(s: string, kept: seq<Digit>, tenpwr: int) {
    && Meant(kept, tenpwr) <= ReadValue(s)
    && ReadValue(s) - Meant(kept, tenpwr) <= Fine() * ReadValue(s)
    && (Significant(s) <= 52 ==> Meant(kept, tenpwr) == ReadValue(s))
    && (Point(kept) == 0.0 <==> ReadValue(s) == 0.0)
  }

  /** The number of digits from the first one that is not zero on. */
  function Significant(s: string): nat {
    var ds := DigitsOf(s[..SignificandEnd(s)]);
    |ds| - Zeros(ds)
  }

  lemma ScannedIsKept(s: string, u: string, digits: seq<Digit>, count: nat, tenpwr: int, started: bool, seendot: bool)
    requires u == s[..SignificandEnd(s)] && Scanned(u, digits, count, tenpwr, started, seendot)
    ensures count <= MANT_DIGITS && tenpwr + ExponentRead(s) == ScaleOf(s)
      && KeptOf(s, digits[..count], tenpwr + ExponentRead(s))
  {
    hide *;
    var ds := DigitsOf(u);
    var sig, t := ds[Zeros(ds)..], tenpwr + ExponentRead(s);
    ScannedParts(u, digits, count, tenpwr, started, seendot);
    AfterZeros(ds);
    ValueOf(s, u);
    WithoutZeros(ds, BeforePoint(u) + ExponentRead(s));
    SignificantIsKept(s, sig, count, t);
  }

  lemma ScannedParts(u: string, digits: seq<Digit>, count: nat, tenpwr: int, started: bool, seendot: bool)
    requires Scanned(u, digits, count, tenpwr, started, seendot)
    ensures var ds := DigitsOf(u); var sig := ds[Zeros(ds)..];
      && count == (if |sig| < MANT_DIGITS then |sig| else MANT_DIGITS) && count <= |digits|
        && digits[..count] == sig[..count]
      && tenpwr == BeforePoint(u) - Zeros(ds)
  {
    hide DigitsOf, Zeros, BeforePoint, IsSignificand;
  }

  lemma SignificantIsKept(s: string, sig: seq<Digit>, count: nat, t: int)
    requires ReadValue(s) == Meant(sig, t) && Significant(s) == |sig| && (sig != [] ==> sig[0] != 0)
    requires count == if |sig| < MANT_DIGITS then |sig| else MANT_DIGITS
    ensures KeptOf(s, sig[..count], t)
  {
    assert sig[..count] == [] ==> sig == [];
    hide *;
    KeptIsClose(sig, count, t);
    PointBound(sig);
    TenPositive(t);
    NoMore(sig, sig[..count], t);
    KeptFrom(s, sig, sig[..count], t);
  }

  lemma ValueOf(s: string, u: string)
    requires u == s[..SignificandEnd(s)]
    ensures ReadValue(s) == Meant(DigitsOf(u), BeforePoint(u) + ExponentRead(s))
    ensures Significant(s) == |DigitsOf(u)| - Zeros(DigitsOf(u))
    ensures ScaleOf(s) == BeforePoint(u) - Zeros(DigitsOf(u)) + ExponentRead(s)
  {
    hide Meant, DigitsOf, BeforePoint, ExponentRead, Zeros;
  }

  lemma KeptFrom(s: string, sig: seq<Digit>, kept: seq<Digit>, t: int)
    requires ReadValue(s) == Meant(sig, t) && Significant(s) == |sig|
    requires Meant(kept, t) <= Meant(sig, t) && Meant(sig, t) - Meant(kept, t) <= Fine() * Meant(sig, t)
    requires |sig| <= MANT_DIGITS ==> kept == sig
    requires Point(kept) == 0.0 <==> Meant(sig, t) == 0.0
    ensures KeptOf(s, kept, t)
  {
    hide Meant, ReadValue, Significant, Fine, Point;
  }

  lemma NoMore(sig: seq<Digit>, kept: seq<Digit>, t: int)
    requires TenPower(t) > 0.0 && 0.0 <= Point(sig) && Meant(kept, t) <= Meant(sig, t)
    requires (kept == [] || Point(kept) > 0.0) && (kept == [] ==> sig == [])
    ensures Point(kept) == 0.0 <==> Meant(sig, t) == 0.0
  {
    PointBound([]);
    hide Point, TenPower;
    if kept != [] {
      Positive(Point(kept), TenPower(t));
    }
  }

  // ---------- The clipped exponent ----------

  /** The exponent is not clipped, or there is nothing to scale. */
  predicate WellScaled(s: string) {
    var e := SignificandEnd(s);
    e == |s| || ExponentNumber(Unsigned(s[e + 1..])) <= EXPONENT_MAX || Significant(s) == 0
  }

  lemma {:induction false} TenGrows(a: int, b: int)
    requires a < b
    ensures TenPower(a) < TenPower(b)
    decreases b - a
  {
    hide TenPower;
    TenUp(b - 1);
    TenPositive(b - 1);
    if a < b - 1 {
      TenGrows(a, b - 1);
    }
  }

  /** Digits write zero exactly when none but zeros are among them. */
  lemma PointZero(ds: seq<Digit>)
    ensures Point(ds) >= 0.0 && (Point(ds) == 0.0 <==> Zeros(ds) == |ds|)
  {
    hide Point, TenPower, Zeros, Meant;
    var sig := ds[Zeros(ds)..];
    var z: int := Zeros(ds);
    WithoutZeros(ds, 0);
    AfterZeros(ds);
    PointBound(ds);
    MeantIs(ds, 0);
    MeantIs(sig, 0 - z);
    NothingKept(0 - z);
    TenPositive(0);
    TenPositive(0 - z);
    SameProduct(TenPower(0), Point(ds), 0.0);
    if sig != [] {
      AtLeastTenth(sig);
      Positive(Point(sig), TenPower(0 - z));
    }
  }

  lemma MeantIs(ds: seq<Digit>, t: int)
    ensures Meant(ds, t) == Point(ds) * TenPower(t) == TenPower(t) * Point(ds)
  {
    hide Point, TenPower;
    RMul(Point(ds), TenPower(t), 1.0);
  }

  lemma SameProduct(p: real, x: real, y: real)
    ensures p * x == p * y <==> p == 0.0 || x == y
  {
    if p > 0.0 && x != y {
      RScaleStrict(if x < y then x else y, if x < y then y else x, p);
    } else if p < 0.0 && x != y {
      RScaleStrict(if x < y then x else y, if x < y then y else x, 0.0 - p);
    }
  }

  /** A constant is read as the number it writes if and only if its exponent is at most 5000 or its digits are all
      zero. */
  lemma ReadIsMeant(s: string)
    ensures ReadValue(s) == ConstantValue(s) <==> WellScaled(s)
    ensures ReadValue(s) == 0.0 <==> ConstantValue(s) == 0.0
  {
    hide Point, TenPower, ReadValue, ConstantValue, ExponentRead, ExponentOf, WellScaled, Significant, DigitsOf, Zeros;
    var ds, a, b := Factors(s);
    PointZero(ds);
    SameProduct(Point(ds), TenPower(a), TenPower(b));
    SameProduct(Point(ds), TenPower(a), 0.0);
    SameProduct(Point(ds), TenPower(b), 0.0);
    TenPositive(a);
    TenPositive(b);
    if a < b {
      TenGrows(a, b);
    } else if b < a {
      TenGrows(b, a);
    }
  }

  lemma Factors(s: string) returns (ds: seq<Digit>, a: int, b: int)
    ensures ReadValue(s) == Point(ds) * TenPower(a) && ConstantValue(s) == Point(ds) * TenPower(b)
    ensures WellScaled(s) <==> a == b || Zeros(ds) == |ds|
  {
    hide Point, TenPower, ExponentRead, ExponentOf, WellScaled, DigitsOf, BeforePoint, Zeros;
    var u := s[..SignificandEnd(s)];
    ds, a, b := DigitsOf(u), BeforePoint(u) + ExponentRead(s), BeforePoint(u) + ExponentOf(s);
    ClippedTogether(s);
  }

  lemma ValueIsPositive(s: string)
    ensures ConstantValue(s) >= 0.0
  {
    hide Point, TenPower, ReadValue, ConstantValue, WellScaled, Zeros;
    var ds, a, b := Factors(s);
    PointZero(ds);
    TenPositive(b);
    RScale(0.0, Point(ds), TenPower(b));
  }

  lemma ClippedTogether(s: string)
    ensures WellScaled(s) <==> ExponentRead(s) == ExponentOf(s) || Significant(s) == 0
  {
    hide ExponentNumber, Significant;
  }

  /** 0.000 with `k` zeros after the point. */
  function Nought(k: nat): string {
    if k == 0 then "0." else Nought(k - 1) + "0"
  }

  /** A one in the place after them, and the exponent 6001. */
  function Remote(k: nat): string {
    Nought(k) + "1e6001"
  }

  lemma {:induction false} NoughtIs(k: nat)
    ensures |Nought(k)| == k + 2 && '.' in Nought(k) && BeforePoint(Nought(k)) == 1
    ensures forall i :: 0 <= i < k + 2 ==> Nought(k)[i] == '0' || Nought(k)[i] == '.'
    ensures |DigitsOf(Nought(k))| == k + 1 == Zeros(DigitsOf(Nought(k)))
  {
    if k == 0 {
      NoughtBegins();
    } else {
      NoughtIs(k - 1);
      OneMoreZero(Nought(k - 1), Nought(k));
      ZerosSnoc(DigitsOf(Nought(k - 1)), 0);
    }
  }

  lemma NoughtBegins()
    ensures '.' in "0." && BeforePoint("0.") == 1 && DigitsOf("0.") == [0] && Zeros([0]) == 1
  {
    assert "0."[..1] == "0" && "0"[..0] == "" && "0."[1] == '.';
    assert BeforePoint("0") == 1 && DigitsOf("0") == [0];
    assert [0][1..] == [];
  }

  lemma OneMoreZero(u: string, w: string)
    requires w == u + "0" && '.' in u
    ensures BeforePoint(w) == BeforePoint(u) && DigitsOf(w) == DigitsOf(u) + [0]
  {
    assert w[..|u|] == u && w[|u|] == '0';
  }

  lemma {:induction false} EndAt(s: string, i: nat, e: nat)
    requires i <= e < |s| && s[e] == 'e' && forall j :: i <= j < e ==> s[j] != 'e' && s[j] != 'E'
    ensures SignificandEnd(s, i) == e
    decreases e - i
  {
    if i < e {
      EndAt(s, i + 1, e);
    }
  }

  lemma Exponent6001()
    ensures ExponentNumber("6001") == 6001
  {
    assert "6001"[..3] == "600" && "600"[..2] == "60" && "60"[..1] == "6" && "6"[..0] == "";
    assert ExponentNumber("6") == 6 && ExponentNumber("60") == 60 && ExponentNumber("600") == 600;
  }

  lemma OneTenth(t: int)
    ensures Meant([1], t + 1) == TenPower(t)
  {
    TenUp(t);
    PointTimes([1]);
    assert Decimal([1]) == 1 && Ten(1) == 10;
    hide Point, TenPower;
    RMul(Point([1]), 10.0, TenPower(t));
  }

  lemma RemoteText(k: nat)
    ensures var s := Remote(k);
      && |s| == k + 8 && SignificandEnd(s) == k + 3 && s[..k + 3] == Nought(k) + "1" && s[k + 4..] == "6001"
  {
    hide BeforePoint, DigitsOf, Zeros;
    NoughtIs(k);
    hide Nought;
    var s, u := Remote(k), Nought(k) + "1";
    assert s == u + "e6001" && |u| == k + 3;
    assert s[k + 3] == 'e' && s[..k + 3] == u;
    assert s[k + 4..] == "e6001"[1..] == "6001";
    forall j | 0 <= j < k + 3
      ensures s[j] != 'e' && s[j] != 'E'
    {
      assert j < k + 2 ==> s[j] == Nought(k)[j];
    }
    EndAt(s, 0, k + 3);
  }

  lemma RemoteDigits(k: nat)
    ensures var u := Nought(k) + "1";
      |DigitsOf(u)| == k + 2 && DigitsOf(u)[k + 1..] == [1] && Zeros(DigitsOf(u)) == k + 1 && BeforePoint(u) == 1
  {
    NoughtIs(k);
    var v, u := Nought(k), Nought(k) + "1";
    hide Nought;
    assert u[..k + 2] == v && u[k + 2] == '1';
    assert DigitsOf(u) == DigitsOf(v) + [1];
    ZerosSnoc(DigitsOf(v), 1);
  }

  /** It writes ten to the 6000 - k, and is read as ten to the 4999 - k: with 6000 zeros, one is read as ten to the
      -1001. */
  lemma RemoteIsMisread(k: nat)
    ensures ConstantValue(Remote(k)) == TenPower(6000 - k) && ReadValue(Remote(k)) == TenPower(4999 - k)
  {
    var s := Remote(k);
    RemoteText(k);
    RemoteDigits(k);
    Exponent6001();
    assert HasSign("6001") == false;
    var ds := DigitsOf(s[..k + 3]);
    hide Meant, TenPower, DigitsOf, Zeros, BeforePoint, SignificandEnd, ExponentNumber, Remote;
    assert ExponentOf(s) == 6001 && ExponentRead(s) == 5000;
    WithoutZeros(ds, 1 + 6001);
    WithoutZeros(ds, 1 + 5000);
    OneTenth(6000 - k);
    OneTenth(4999 - k);
  }

  // ---------- The whole conversion ----------

  /** What is surely left of a constant's value when only 52 digits are kept. */
  function Cut(s: string): real {
    if Significant(s) <= MANT_DIGITS then 1.0 else 1.0 - Fine()
  }

  /** What the source promises of a constant that stands for `x`: that value, short of it by the digits cut off and by
      the truncations of the products, above it only through the factor one fifth. */
  ghost predicate Converted(s: string, x: real, v: real)
    requires Half() > 0
  {
    && (x * Cut(s)) * RealPower(Left(Half()), Size(ScaleOf(s)) + 1) <= v
    && v <= x * RealPower(Excess(ScaleOf(s)), Size(ScaleOf(s)))
  }

  lemma KeptBounds(s: string, kept: seq<Digit>, tenpwr: int, x: real, y: real, cut: real)
    requires KeptOf(s, kept, tenpwr) && x == ReadValue(s) && y == Meant(kept, tenpwr)
    requires cut == Cut(s)
    ensures x * cut <= y <= x
  {
    hide Meant, ReadValue, Significant, Fine, Point;
  }

  lemma PowerBounds(v: real, y: real, tenpwr: int, low: real, high: real)
    requires Half() > 0 && Approximates(v, y, tenpwr)
    requires low == RealPower(Left(Half()), Size(tenpwr) + 1) && high == RealPower(Excess(tenpwr), Size(tenpwr))
    ensures y * low <= v <= y * high
  {
    hide RealPower, Left, Half, Size, Excess;
  }

  lemma PowersPositive(tenpwr: int)
    requires Half() > 0
    ensures RealPower(Left(Half()), Size(tenpwr) + 1) > 0.0 && RealPower(Excess(tenpwr), Size(tenpwr)) > 0.0
  {
    Sizes();
    hide Half, Left, One;
    Inverse(4.0 * One() as real);
    RealPowerPositive(Left(Half()), Size(tenpwr) + 1);
    RealPowerPositive(Excess(tenpwr), Size(tenpwr));
  }

  /** `ieee_flconvert`: it succeeds exactly on decimal constants, and the result is about the value of the constant. */
  method FlConvert(s: string, mant: array<Limb>) returns (ok: bool, exponent: int)
    requires mant.Length == LIMBS
    modifies mant
    ensures ok <==> IsConstant(s)
    ensures ok ==> Half() > 0 && Converted(s, ReadValue(s), Number(mant[..], exponent))
    ensures ok && WellScaled(s) ==> Converted(s, ConstantValue(s), Number(mant[..], exponent))
    ensures ok ==> if ConstantValue(s) == 0.0 then Zero(mant[..]) else Normal(mant[..])
  {
    hide Half, Number, Value, KeptOf, Approximates, ReadValue, ConstantValue, WellScaled, ScaleOf,
      IsConstant, Point, Meant, RealPower, Left, Size,
      Excess, Significant, Fine, Cut;
    var digits := new Digit[MANT_DIGITS](i => 0);
    var count, tenpwr;
    exponent := 0;
    ok, count, tenpwr := ReadConstant(s, digits);
    if ok {
      ghost var kept := digits[..count];
      ZeroTogether(s, kept, tenpwr);
      ReadIsMeant(s);
      exponent := Convert(digits, count, tenpwr, mant);
      ghost var x, y, v := ReadValue(s), Meant(kept, tenpwr), Number(mant[..], exponent);
      ghost var cut := Cut(s);
      ghost var low, high := RealPower(Left(Half()), Size(tenpwr) + 1), RealPower(Excess(tenpwr), Size(tenpwr));
      KeptBounds(s, kept, tenpwr, x, y, cut);
      PowerBounds(v, y, tenpwr, low, high);
      PowersPositive(tenpwr);
      RScale(x * cut, y, low);
      RScale(y, x, high);
    }
  }

  lemma ZeroTogether(s: string, kept: seq<Digit>, tenpwr: int)
    requires KeptOf(s, kept, tenpwr)
    ensures Point(kept) == 0.0 <==> ReadValue(s) == 0.0
  {
  }
}
