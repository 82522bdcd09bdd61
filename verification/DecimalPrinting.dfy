/**
 What decimal constants mean (lib/cpp/floating.cpp, `ieee_flconvert`), stated of printed numbers: digits from a table,
 with a point and an exponent.
 */
module DecimalPrinting {
  import opened Common
  import opened DecimalFloat
  import opened DecimalDigits
  import opened DecimalConvert
  import opened DecimalScan

  const DIGITS: string := "0123456789"

  /** The last `n` decimal digits of a number. */
  function Printed(v: nat, n: nat): (s: string)
    ensures |s| == n
  {
    if n == 0 then "" else Printed(v / 10, n - 1) + [DIGITS[v % 10]]
  }

  lemma DigitTable(d: nat)
    requires d < 10
    ensures IsDecimal(DIGITS[d]) && DigitOf(DIGITS[d]) == d
  {
  }

  /** One more digit at the end of a significand. */
  lemma DigitAppended(u: string, d: nat)
    requires d < 10 && IsSignificand(u)
    ensures var w := u + [DIGITS[d]];
      && IsSignificand(w) && |DigitsOf(w)| == |DigitsOf(u)| + 1
      && Decimal(DigitsOf(w)) == 10 * Decimal(DigitsOf(u)) + d
      && BeforePoint(w) == BeforePoint(u) + if '.' in u then 0 else 1
  {
    hide Decimal, Ten;
    var c := DIGITS[d];
    DigitTable(d);
    assert (u + [c])[..|u|] == u;
    DecimalSnoc(DigitsOf(u), d);
  }

  /** Printed digits at the end of a significand. */
  lemma {:induction false} PrintedAppended(u: string, b: nat, m: nat)
    requires IsSignificand(u) && b < Ten(m)
    ensures var w := u + Printed(b, m);
      && IsSignificand(w) && |DigitsOf(w)| == |DigitsOf(u)| + m
      && Decimal(DigitsOf(w)) == Decimal(DigitsOf(u)) * Ten(m) + b
      && BeforePoint(w) == BeforePoint(u) + if '.' in u then 0 else m
    decreases m
  {
    hide IsSignificand, DigitsOf, BeforePoint, Decimal;
    if m == 0 {
      assert u + Printed(b, 0) == u;
    } else {
      PrintedAppended(u, b / 10, m - 1);
      var w := u + Printed(b / 10, m - 1);
      DigitAppended(w, b % 10);
      assert u + Printed(b, m) == w + [DIGITS[b % 10]];
      PointKept(u, b / 10, m - 1);
      Tenfold(Decimal(DigitsOf(u)), Ten(m - 1), b);
    }
  }

  lemma Tenfold(x: nat, p: nat, b: nat)
    ensures 10 * (x * p + b / 10) + b % 10 == x * (10 * p) + b
  {
    assert x * (10 * p) == 10 * (x * p);
  }

  lemma {:induction false} NoLetter(v: nat, n: nat, c: char)
    requires c in Printed(v, n)
    ensures '0' <= c <= '9'
  {
    if c in Printed(v / 10, n - 1) {
      NoLetter(v / 10, n - 1, c);
    } else {
      DigitTable(v % 10);
    }
  }

  lemma PointKept(u: string, v: nat, n: nat)
    ensures '.' in u + Printed(v, n) <==> '.' in u
  {
    if '.' in Printed(v, n) {
      NoLetter(v, n, '.');
    }
  }

  lemma PointAppended(u: string)
    requires IsSignificand(u) && '.' !in u
    ensures var w := u + ".";
      IsSignificand(w) && '.' in w && DigitsOf(w) == DigitsOf(u) && BeforePoint(w) == BeforePoint(u)
  {
    assert (u + ".")[..|u|] == u;
  }

  /** Digits, a point and digits. */
  function Mantissa(a: nat, n: nat, b: nat, m: nat): string {
    Printed(a, n) + "." + Printed(b, m)
  }

  lemma MantissaIs(a: nat, n: nat, b: nat, m: nat)
    requires a < Ten(n) && b < Ten(m)
    ensures var u := Mantissa(a, n, b, m);
      && IsSignificand(u) && BeforePoint(u) == n && |DigitsOf(u)| == n + m
      && Decimal(DigitsOf(u)) == a * Ten(m) + b
  {
    Nothing();
    hide IsSignificand, DigitsOf, BeforePoint, Decimal, Ten;
    PrintedAppended("", a, n);
    assert "" + Printed(a, n) == Printed(a, n);
    PointKept("", a, n);
    PointAppended(Printed(a, n));
    PrintedAppended(Printed(a, n) + ".", b, m);
  }

  lemma Nothing()
    ensures IsSignificand("") && DigitsOf("") == [] && BeforePoint("") == 0 && Decimal([]) == 0
  {
  }

  // ---------- The exponent ----------

  lemma {:induction false} PrintedExponent(k: nat, l: nat)
    requires k < Ten(l)
    ensures IsExponent(Printed(k, l)) && ExponentNumber(Printed(k, l)) == k
  {
    if l > 0 {
      PrintedExponent(k / 10, l - 1);
      DigitTable(k % 10);
      assert Printed(k, l)[..l - 1] == Printed(k / 10, l - 1);
    }
  }

  lemma {:induction false} EndsHere(u: string, rest: string, i: nat)
    requires i <= |u| && forall c :: c in u ==> c != 'E' && c != 'e'
    requires rest == "" || rest[0] == 'E' || rest[0] == 'e'
    ensures SignificandEnd(u + rest, i) == |u|
    decreases |u| - i
  {
    if i < |u| {
      assert (u + rest)[i] == u[i] && u[i] in u;
      EndsHere(u, rest, i + 1);
    }
  }

  lemma MantissaHasNoE(a: nat, n: nat, b: nat, m: nat, c: char)
    requires c in Mantissa(a, n, b, m)
    ensures c != 'E' && c != 'e'
  {
    if c in Printed(a, n) {
      NoLetter(a, n, c);
    } else if c in Printed(b, m) {
      NoLetter(b, m, c);
    }
  }

  datatype Sign = Unmarked | PlusSign | MinusSign

  function SignText(s: Sign): string {
    match s
    case Unmarked => ""
    case PlusSign => "+"
    case MinusSign => "-"
  }

  /** An E, a sign if there is one, and digits. */
  function Tail(e: char, s: Sign, k: nat, l: nat): string {
    [e] + SignText(s) + Printed(k, l)
  }

  lemma TailIs(e: char, s: Sign, k: nat, l: nat)
    requires k < Ten(l)
    ensures IsExponent(Unsigned(Tail(e, s, k, l)[1..]))
    ensures ExponentValue(Tail(e, s, k, l)[1..]) == if s.MinusSign? then 0 - k else k
  {
    hide Ten, IsExponent, ExponentNumber;
    PrintedExponent(k, l);
    var u, p := Tail(e, s, k, l)[1..], Printed(k, l);
    assert u == SignText(s) + p;
    if s.Unmarked? {
      assert u == p;
      if p != "" {
        NoLetter(k, l, p[0]);
      }
    } else {
      assert u[1..] == p;
    }
  }

  // ---------- Values ----------

  lemma {:induction false} TenPowerAdds(n: nat, x: int)
    ensures TenPower(n + x) == Ten(n) as real * TenPower(x)
    decreases n
  {
    hide TenPower;
    if n > 0 {
      TenPowerAdds(n - 1, x);
      TenUp(n - 1 + x);
      TenTimes(n - 1);
      assert n - 1 + x + 1 == n + x;
      RMul(10.0, Ten(n - 1) as real, TenPower(x));
    }
  }

  lemma TenProduct(a: nat, b: nat)
    ensures 10 * (a * b) == (10 * a) * b
  {
  }

  lemma {:induction false} TenAdds(n: nat, m: nat)
    ensures Ten(n + m) == Ten(n) * Ten(m)
    decreases n
  {
    if n > 0 {
      TenAdds(n - 1, m);
      TenProduct(Ten(n - 1), Ten(m));
    }
  }

  lemma MeantIs(ds: seq<Digit>, n: nat, m: nat, x: int)
    requires |ds| == n + m
    ensures Meant(ds, n + x) * Ten(m) as real == Decimal(ds) as real * TenPower(x)
  {
    hide Point, Decimal, Ten, TenPower;
    PointTimes(ds);
    TenPowerAdds(n, x);
    TenAdds(n, m);
    RealOfProduct(Ten(n), Ten(m));
    Regrouped(Point(ds), Ten(n) as real, Ten(m) as real, TenPower(x));
  }

  lemma Regrouped(p: real, a: real, b: real, w: real)
    ensures (p * (a * w)) * b == (p * (a * b)) * w
  {
    RMul(p, a * w, b);
    RMul(a, w, b);
    RMul(w, b, 1.0);
    RMul(a, b, w);
    RMul(p, a * b, w);
  }

  /** A significand and what follows it. */
  lemma Parts(u: string, rest: string, x: int)
    requires IsSignificand(u) && forall c :: c in u ==> c != 'E' && c != 'e'
    requires if rest == "" then x == 0 else
      (rest[0] == 'E' || rest[0] == 'e') && IsExponent(Unsigned(rest[1..])) && ExponentValue(rest[1..]) == x
    ensures IsConstant(u + rest) && ConstantValue(u + rest) == Meant(DigitsOf(u), BeforePoint(u) + x)
  {
    hide IsSignificand, DigitsOf, BeforePoint, Meant, IsExponent, ExponentNumber, ExponentValue, Unsigned;
    EndsHere(u, rest, 0);
    assert (u + rest)[..|u|] == u;
    if rest != "" {
      assert (u + rest)[|u| + 1..] == rest[1..];
    }
  }

  lemma NoE(a: nat, n: nat, b: nat, m: nat)
    ensures forall c :: c in Mantissa(a, n, b, m) ==> c != 'E' && c != 'e'
  {
    forall c | c in Mantissa(a, n, b, m)
      ensures c != 'E' && c != 'e'
    {
      MantissaHasNoE(a, n, b, m, c);
    }
  }

  lemma PartsMean(u: string, rest: string, x: int, a: nat, n: nat, b: nat, m: nat)
    requires u == Mantissa(a, n, b, m) && a < Ten(n) && b < Ten(m)
    requires if rest == "" then x == 0 else
      (rest[0] == 'E' || rest[0] == 'e') && IsExponent(Unsigned(rest[1..])) && ExponentValue(rest[1..]) == x
    ensures IsConstant(u + rest) && ConstantValue(u + rest) * Ten(m) as real == (a * Ten(m) + b) as real * TenPower(x)
  {
    hide IsConstant, ConstantValue, IsSignificand, DigitsOf, BeforePoint, Decimal, Ten, TenPower, Meant, IsExponent,
      ExponentValue, Mantissa, Unsigned;
    NoE(a, n, b, m);
    MantissaIs(a, n, b, m);
    Parts(u, rest, x);
    MeantIs(DigitsOf(u), n, m, x);
  }

  /** Digits, a point, digits and an exponent of ten in either case write the number they say. */
  lemma PrintedIsMeant(a: nat, n: nat, b: nat, m: nat, e: char, s: Sign, k: nat, l: nat)
    requires a < Ten(n) && b < Ten(m) && k < Ten(l) && (e == 'e' || e == 'E')
    ensures var text := Mantissa(a, n, b, m) + Tail(e, s, k, l);
      && IsConstant(text)
      && ConstantValue(text) * Ten(m) as real
         == (a * Ten(m) + b) as real * TenPower(if s.MinusSign? then 0 - k else k)
  {
    hide IsConstant, ConstantValue, Ten, TenPower, IsExponent, ExponentValue, SignText, Printed, Mantissa, Unsigned;
    TailIs(e, s, k, l);
    PartsMean(Mantissa(a, n, b, m), Tail(e, s, k, l), if s.MinusSign? then 0 - k else k, a, n, b, m);
  }

  lemma NoPower()
    ensures TenPower(0) == 1.0
  {
  }

  /** Without an exponent the number is the digits with their point. */
  lemma PrintedPlain(a: nat, n: nat, b: nat, m: nat)
    requires a < Ten(n) && b < Ten(m)
    ensures var text := Mantissa(a, n, b, m);
      IsConstant(text) && ConstantValue(text) * Ten(m) as real == (a * Ten(m) + b) as real
  {
    hide IsConstant, ConstantValue, Ten, TenPower, Mantissa;
    NoPower();
    var u := Mantissa(a, n, b, m);
    PartsMean(u, "", 0, a, n, b, m);
    assert u + "" == u;
  }
}
