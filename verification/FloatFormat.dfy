/**
 Writing a mantissa and an exponent in an IEEE format (lib/cpp/floating.cpp, `to_float` from the mantissa on), under
 rounding to nearest: normal numbers, denormal ones, zero and infinity.

 What is written is read back by the format's own rules, those of section 3.4 of IEEE 754-2019 and, for the 80-bit
 format, the same with the integer bit written out.
 */
module FloatFormat {
  import opened Common
  import opened Limbs
  import opened Powers
  import opened FloatRound
  import opened LittleEndian
  import FloatMultiply
  import FloatShift

  // ---------- Formats ----------

  datatype Format = Format(bytes: nat, mantissa: nat, explicitInt: nat, exponent: nat) {
    function Bits(): nat {
      8 * bytes
    }

    /** The bits after the exponent. */
    function Fraction(): nat {
      mantissa + explicitInt
    }

    /** The place of the leading one, counted from the first bit. */
    function Lead(): nat {
      exponent + explicitInt
    }

    function ExpMax(): nat
      requires exponent > 0
    {
      Pow2(exponent - 1)
    }

    predicate Sane() {
      2 <= exponent <= 15 && explicitInt <= 1 && 1 <= mantissa && bytes <= 16
        && Bits() == 1 + exponent + explicitInt + mantissa
    }
  }

  const IEEE_8 := Format(1, 3, 0, 4)
  const IEEE_16 := Format(2, 10, 0, 5)
  const IEEE_32 := Format(4, 23, 0, 8)
  const IEEE_64 := Format(8, 52, 0, 11)
  const IEEE_80 := Format(10, 63, 1, 15)
  const IEEE_128 := Format(16, 112, 0, 15)

  lemma FormatsAreSane(f: Format)
    requires f in [IEEE_8, IEEE_16, IEEE_32, IEEE_64, IEEE_80, IEEE_128]
    ensures f.Sane()
  {
  }

  /** `significand` times two to the `exponent`. */
  datatype Float = Finite(negative: bool, significand: int, exponent: int) | Infinite(negative: bool) | NotANumber

  /** What sign, exponent field and fraction field stand for. */
  function Parts(f: Format, negative: bool, biased: int, fraction: int): Float
    requires f.Sane()
  {
    if biased == Pow2(f.exponent) - 1 then
      if fraction == f.explicitInt * Pow2(f.mantissa) then Infinite(negative) else NotANumber
    else if biased == 0 then Finite(negative, fraction, 2 - f.ExpMax() - f.mantissa)
    else
      var lead := if f.explicitInt == 1 then 0 else Pow2(f.mantissa);
      Finite(negative, fraction + lead, biased - (f.ExpMax() - 1) - f.mantissa)
  }

  function Decode(f: Format, n: nat): Float
    requires f.Sane()
  {
    var w, e := Pow2(f.Fraction()), Pow2(f.exponent);
    Parts(f, (n / w) / e % 2 == 1, (n / w) % e, n % w)
  }

  function Composed(f: Format, negative: bool, biased: int, fraction: int): int
    requires f.Sane()
  {
    fraction + biased * Pow2(f.Fraction()) + if negative then Pow2(f.Bits() - 1) else 0
  }

  /** Three fields side by side are found again. */
  lemma SplitFields(n: int, w: nat, e: nat, s: nat, biased: nat, fraction: nat)
    requires n == fraction + biased * w + s * (e * w) && fraction < w && biased < e && s <= 1
    ensures n >= 0 && n % w == fraction && (n / w) % e == biased && (n / w) / e == s
  {
    var a := biased + s * e;
    NotNegative(biased, w);
    assert s * (e * w) == if s == 1 then e * w else 0;
    NotNegative(e, w);
    assert n == a * w + fraction by {
      Distribute(biased, s * e, w);
      Associate(s, e, w);
    }
    DivideBy(n, w, a, fraction);
    DivideBy(a, e, s, biased);
  }

  lemma FieldsFit(w: nat, e: nat, s: nat, biased: nat, fraction: nat)
    requires fraction < w && biased < e && s <= 1
    ensures fraction + biased * w + s * (e * w) < 2 * (e * w)
  {
    Scale(biased + 1, e, w);
    Distribute(biased, 1, w);
    assert s * (e * w) == if s == 1 then e * w else 0;
  }

  lemma FieldWidths(f: Format)
    requires f.Sane()
    ensures Pow2(f.Bits()) == 2 * (Pow2(f.exponent) * Pow2(f.Fraction()))
    ensures Pow2(f.Bits() - 1) == Pow2(f.exponent) * Pow2(f.Fraction())
  {
    Pow2Adds(f.exponent, f.Fraction());
    assert f.Bits() - 1 == f.exponent + f.Fraction();
  }

  lemma DecodeComposed(f: Format, negative: bool, biased: nat, fraction: nat)
    requires f.Sane() && biased < Pow2(f.exponent) && fraction < Pow2(f.Fraction())
    ensures 0 <= Composed(f, negative, biased, fraction) < Pow2(f.Bits())
    ensures Decode(f, Composed(f, negative, biased, fraction)) == Parts(f, negative, biased, fraction)
  {
    hide Pow2, Parts;
    var w, e, s := Pow2(f.Fraction()), Pow2(f.exponent), if negative then 1 else 0;
    FieldWidths(f);
    var n, ew := Composed(f, negative, biased, fraction), e * w;
    assert n == fraction + biased * w + s * ew;
    SplitFields(n, w, e, s, biased, fraction);
    FieldsFit(w, e, s, biased, fraction);
  }

  // ---------- The six formats ----------

  lemma FormatPowers()
    ensures Pow2(3) == 8 && Pow2(4) == 16 && Pow2(5) == 32 && Pow2(7) == 0x80 && Pow2(8) == 0x100
    ensures Pow2(10) == 0x400 && Pow2(11) == 0x800 && Pow2(14) == 0x4000 && Pow2(15) == 0x8000
    ensures Pow2(23) == 0x80_0000 && Pow2(52) == 0x10_0000_0000_0000 && Pow2(63) == 0x8000_0000_0000_0000
    ensures Pow2(64) == 0x1_0000_0000_0000_0000
    ensures Pow2(112) == 0x1_0000_0000_0000_0000_0000_0000_0000
  {
    WordPowers();
    assert Pow2(3) == 8;
    Pow2Adds(4, 1);
    Pow2Adds(4, 3);
    Pow2Adds(8, 2);
    Pow2Adds(8, 3);
    Pow2Adds(7, 7);
    Pow2Adds(8, 7);
    Pow2Adds(16, 7);
    Pow2Adds(32, 16);
    Pow2Adds(48, 4);
    Pow2Adds(32, 31);
    Pow2Adds(64, 48);
  }

  lemma PlainNumber(f: Format, n: nat, biased: nat, fraction: nat, w: nat, e: nat, half: nat, m: nat)
    requires f.Sane() && w == Pow2(f.Fraction()) && e == Pow2(f.exponent) && half == f.ExpMax() && m == Pow2(f.mantissa)
    requires 0 < biased < e - 1 && fraction < w && n == fraction + biased * w
    ensures Decode(f, n) == Finite(false, if f.explicitInt == 1 then fraction else fraction + m,
                                   biased - (half - 1) - f.mantissa)
  {
    hide Pow2, Decode;
    DecodeComposed(f, false, biased, fraction);
  }

  // How 1 and the largest finite number are written in each format: the number that the bytes make, lowest first, and
  // what it stands for.

  lemma NumbersOf8()
    ensures Decode(IEEE_8, 0x38) == Finite(false, 0x8, -3)
    ensures Decode(IEEE_8, 0x77) == Finite(false, 0xf, 4)
  {
    hide Pow2, Decode;
    FormatPowers();
    PlainNumber(IEEE_8, 0x38, 0x7, 0, 0x8, 0x10, 0x8, 0x8);
    PlainNumber(IEEE_8, 0x77, 0xe, 0x7, 0x8, 0x10, 0x8, 0x8);
  }

  lemma NumbersOf16()
    ensures Decode(IEEE_16, 0x3c00) == Finite(false, 0x400, -10)
    ensures Decode(IEEE_16, 0x7bff) == Finite(false, 0x7ff, 5)
  {
    hide Pow2, Decode;
    FormatPowers();
    PlainNumber(IEEE_16, 0x3c00, 0xf, 0, 0x400, 0x20, 0x10, 0x400);
    PlainNumber(IEEE_16, 0x7bff, 0x1e, 0x3ff, 0x400, 0x20, 0x10, 0x400);
  }

  lemma NumbersOf32()
    ensures Decode(IEEE_32, 0x3f80_0000) == Finite(false, 0x80_0000, -23)
    ensures Decode(IEEE_32, 0x7f7f_ffff) == Finite(false, 0xff_ffff, 104)
  {
    hide Pow2, Decode;
    FormatPowers();
    PlainNumber(IEEE_32, 0x3f80_0000, 0x7f, 0, 0x80_0000, 0x100, 0x80, 0x80_0000);
    PlainNumber(IEEE_32, 0x7f7f_ffff, 0xfe, 0x7f_ffff, 0x80_0000, 0x100, 0x80, 0x80_0000);
  }

  lemma NumbersOf64()
    ensures Decode(IEEE_64, 0x3ff0_0000_0000_0000) == Finite(false, 0x10_0000_0000_0000, -52)
    ensures Decode(IEEE_64, 0x7fef_ffff_ffff_ffff) == Finite(false, 0x1f_ffff_ffff_ffff, 971)
  {
    hide Pow2, Decode;
    FormatPowers();
    PlainNumber(IEEE_64, 0x3ff0_0000_0000_0000, 0x3ff, 0, 0x10_0000_0000_0000, 0x800, 0x400, 0x10_0000_0000_0000);
    PlainNumber(IEEE_64, 0x7fef_ffff_ffff_ffff, 0x7fe, 0xf_ffff_ffff_ffff,
      0x10_0000_0000_0000, 0x800, 0x400, 0x10_0000_0000_0000);
  }

  lemma NumbersOf80()
    ensures Decode(IEEE_80, 0x3fff_8000_0000_0000_0000) == Finite(false, 0x8000_0000_0000_0000, -63)
    ensures Decode(IEEE_80, 0x7ffe_ffff_ffff_ffff_ffff) == Finite(false, 0xffff_ffff_ffff_ffff, 16320)
  {
    hide Pow2, Decode;
    FormatPowers();
    PlainNumber(IEEE_80, 0x3fff_8000_0000_0000_0000, 0x3fff, 0x8000_0000_0000_0000,
      0x1_0000_0000_0000_0000, 0x8000, 0x4000, 0x8000_0000_0000_0000);
    PlainNumber(IEEE_80, 0x7ffe_ffff_ffff_ffff_ffff, 0x7ffe, 0xffff_ffff_ffff_ffff,
      0x1_0000_0000_0000_0000, 0x8000, 0x4000, 0x8000_0000_0000_0000);
  }

  lemma NumbersOf128()
    ensures Decode(IEEE_128, 0x3fff_0000_0000_0000_0000_0000_0000_0000)
         == Finite(false, 0x1_0000_0000_0000_0000_0000_0000_0000, -112)
    ensures Decode(IEEE_128, 0x7ffe_ffff_ffff_ffff_ffff_ffff_ffff_ffff)
         == Finite(false, 0x1_ffff_ffff_ffff_ffff_ffff_ffff_ffff, 16271)
  {
    hide Pow2, Decode;
    FormatPowers();
    PlainNumber(IEEE_128, 0x3fff_0000_0000_0000_0000_0000_0000_0000, 0x3fff, 0x0,
      0x1_0000_0000_0000_0000_0000_0000_0000, 0x8000, 0x4000, 0x1_0000_0000_0000_0000_0000_0000_0000);
    PlainNumber(IEEE_128, 0x7ffe_ffff_ffff_ffff_ffff_ffff_ffff_ffff, 0x7ffe, 0xffff_ffff_ffff_ffff_ffff_ffff_ffff,
      0x1_0000_0000_0000_0000_0000_0000_0000, 0x8000, 0x4000, 0x1_0000_0000_0000_0000_0000_0000_0000);
  }

  // ---------- Bits of a mantissa ----------

  /** Fewer kept bits are the first of the kept bits. */
  lemma FewerKept(m: seq<Limb>, a: nat, b: nat)
    requires a <= b <= 192
    ensures Kept(m, b) / Pow2(b - a) == Kept(m, a)
  {
    Pow2Adds(192 - b, b - a);
    hide Pow2;
    FloatShift.DivideTwice(Value(m), Pow2(192 - b), Pow2(b - a));
  }

  lemma TopBits(m: seq<Limb>, at: nat)
    requires |m| == LIMBS && at < 31
    ensures m[0] / Pow2(31 - at) == Kept(m, at + 1)
  {
    KeptIs(m, at + 1, 0, at + 1);
    assert m[..0] == [];
  }

  lemma FirstLimbFits(x: Limb, k: int, t: nat, p: nat, q: int)
    requires t > 0 && p * t == BASE && q == x / t && 0 <= q + k < p
    ensures 0 <= x + k * t < BASE
  {
    var r := x % t;
    assert x == q * t + r;
    Distribute(q, k, t);
    NotNegative(q + k, t);
    Scale(q + k + 1, p, t);
    Distribute(q + k, 1, t);
  }

  lemma FirstLimbValue(m: seq<Limb>, r: seq<Limb>, d: int)
    requires |m| == |r| == LIMBS && r[0] == m[0] + d && r[1..] == m[1..]
    ensures Value(r) == Value(m) + d * BPow(5)
  {
    hide Value, BPow;
    if d >= 0 {
      AddAt(m, 0, d);
      assert m[0 := m[0] + d] == r;
    } else {
      AddAt(r, 0, 0 - d);
      assert r[0 := r[0] + (0 - d)] == m;
      Distribute(d, 0 - d, BPow(5));
    }
  }

  lemma KeptAdds(v: int, d: int, unit: nat, k: int)
    requires unit > 0 && d == k * unit
    ensures (v + d) / unit == v / unit + k
  {
    var q, r := v / unit, v % unit;
    Distribute(q, k, unit);
    DivideBy(v + d, unit, q + k, r);
  }

  /** `k` of the bit at place `at` is added to the first limb. */
  method Adjust(mant: array<Limb>, bits: nat, at: nat, k: int)
    requires mant.Length == LIMBS && at < 31 && at < bits < 192
    requires 0 <= Kept(mant[..], at + 1) + k < Pow2(at + 1)
    modifies mant
    ensures Kept(mant[..], bits) == Kept(old(mant[..]), bits) + k * Pow2(bits - 1 - at)
  {
    hide Kept, Value, BPow, Pow2;
    ghost var m := mant[..];
    var t := Pow2(31 - at);
    TopBits(m, at);
    FloatShift.TwoParts(at + 1);
    FirstLimbFits(m[0], k, t, Pow2(at + 1), Kept(m, at + 1));
    mant[0] := mant[0] + k * t;
    assert mant[..][1..] == m[1..];
    FirstLimbValue(m, mant[..], k * t);
    Adjusted(m, mant[..], bits, at, k);
  }

  lemma Adjusted(m: seq<Limb>, r: seq<Limb>, bits: nat, at: nat, k: int)
    requires at < 31 && at < bits < 192 && Value(r) == Value(m) + (k * Pow2(31 - at)) * BPow(5)
    ensures Kept(r, bits) == Kept(m, bits) + k * Pow2(bits - 1 - at)
  {
    hide Pow2, Value, BPow;
    FloatShift.BPowIsPow2(5);
    Pow2Adds(31 - at, 160);
    Pow2Adds(bits - 1 - at, 192 - bits);
    Associate(k, Pow2(31 - at), BPow(5));
    Associate(k, Pow2(bits - 1 - at), Unit(bits));
    KeptAdds(Value(m), (k * Pow2(31 - at)) * BPow(5), Unit(bits), k * Pow2(bits - 1 - at));
  }

  // ---------- Rounding into the format ----------

  /** The significand that a mantissa is rounded to after a shift. */
  function Rounded(f: Format, v: nat, shift: nat): int
    requires f.Sane()
  {
    Nearest(v / Pow2(shift), Unit(f.Bits()))
  }

  lemma NearestBounds(u: nat, unit: nat, low: nat, high: nat)
    requires unit > 0 && low * unit <= u < high * unit
    ensures low <= Nearest(u, unit) <= high
  {
    QuotientBelow(u, unit, high);
    if u / unit < low {
      Scale(u / unit + 1, low, unit);
      Distribute(u / unit, 1, unit);
    }
  }

  /** After a shift by at least `lead` bits the significand has no more than the others, and after a shift by just as
      many it has all of them. */
  lemma RoundedBound(f: Format, v: nat, shift: nat, lead: nat)
    requires f.Sane() && v < Pow2(192) && lead <= shift && lead < f.Bits()
    ensures 0 <= Rounded(f, v, shift) <= Pow2(f.Bits() - lead)
    ensures shift == lead && v >= Pow2(191) ==> Pow2(f.Bits() - lead - 1) <= Rounded(f, v, shift)
  {
    hide Pow2, Rounded;
    if shift > 192 {
      NothingRounded(f, v, shift);
    } else {
      RoundedInside(f, v, shift, lead);
    }
  }

  lemma RoundedTop(f: Format, v: nat, lead: nat)
    requires f.Sane() && Pow2(191) <= v < Pow2(192) && lead < f.Bits()
    ensures Pow2(f.Bits() - lead - 1) <= Rounded(f, v, lead)
  {
    hide Pow2, Nearest;
    var s, n := Pow2(lead), f.Bits() - lead;
    Pow2Adds(n - 1, 192 - f.Bits());
    Pow2Adds(n, 192 - f.Bits());
    Pow2Adds(191 - lead, lead);
    Pow2Adds(192 - lead, lead);
    AtLeastQuotient(v, s, Pow2(191 - lead));
    QuotientBelow(v, s, Pow2(192 - lead));
    NearestBounds(v / s, Unit(f.Bits()), Pow2(n - 1), Pow2(n));
  }

  lemma RoundedInside(f: Format, v: nat, shift: nat, lead: nat)
    requires f.Sane() && v < Pow2(192) && lead <= shift <= 192 && lead < f.Bits()
    ensures 0 <= Rounded(f, v, shift) <= Pow2(f.Bits() - lead)
    ensures shift == lead && v >= Pow2(191) ==> Pow2(f.Bits() - lead - 1) <= Rounded(f, v, shift)
  {
    hide Pow2, Nearest;
    var s, n := Pow2(shift), f.Bits() - lead;
    Pow2Adds(192 - shift, shift);
    Pow2Grows(192 - shift, 192 - lead);
    Pow2Adds(n, 192 - f.Bits());
    QuotientBelow(v, s, Pow2(192 - shift));
    NearestBounds(v / s, Unit(f.Bits()), 0, Pow2(n));
    if shift == lead && v >= Pow2(191) {
      RoundedTop(f, v, lead);
    }
  }

  lemma LittleRounds(x: nat, unit: nat)
    requires 2 * x < unit
    ensures Nearest(x, unit) == 0
  {
    DivideBy(x, unit, 0, x);
  }

  /** Far less than half a unit is rounded to nothing. */
  lemma FewBits(f: Format, x: nat)
    requires f.Sane() && x < BASE
    ensures Nearest(x, Unit(f.Bits())) == 0
  {
    hide Pow2, Nearest;
    Pow2Grows(64, 192 - f.Bits());
    WordPowers();
    LittleRounds(x, Unit(f.Bits()));
  }

  lemma NothingRounded(f: Format, v: nat, shift: nat)
    requires f.Sane() && v < Pow2(192) && shift >= 192
    ensures Rounded(f, v, shift) == 0
  {
    hide Pow2, Nearest;
    Pow2Grows(192, shift);
    SmallQuotient(v, Pow2(shift), 0);
    FewBits(f, 0);
  }

  lemma AtLeastQuotient(v: nat, s: nat, p: nat)
    requires s > 0 && v >= p * s
    ensures v / s >= p
  {
    if v / s < p {
      Scale(v / s + 1, p, s);
      Distribute(v / s, 1, s);
    }
  }

  lemma MantissaBound(m: seq<Limb>)
    requires |m| == LIMBS
    ensures Value(m) < Pow2(192)
  {
    ValueBound(m);
    FloatShift.BPowIsPow2(6);
  }

  /** Shifted for the format and rounded: the kept bits are the rounded significand. That holds even where the shift
      reads a limb before the mantissa, because what it leaves is far below the kept bits. */
  method ShiftAndRound(mant: array<Limb>, f: Format, shift: nat, stray: Limb) returns (inside: bool)
    requires f.Sane() && mant.Length == LIMBS && f.Lead() <= shift
    modifies mant
    ensures Kept(mant[..], f.Bits()) == Rounded(f, old(Value(mant[..])), shift)
    ensures inside <==> shift < 192 || shift % 32 == 0
  {
    ghost var v, k := Value(mant[..]), f.Bits();
    MantissaBound(mant[..]);
    RoundedBound(f, v, shift, 1);
    assert Pow2(k) == 2 * Pow2(k - 1);
    hide Value, Kept, Unit, Pow2, Nearest;
    inside := FloatShift.ShiftRight(mant, shift, stray);
    ghost var x := Value(mant[..]);
    var over := RoundNearest(mant, f.Bits());
    if !inside {
      DividedIsSmaller(stray, Pow2(shift % 32));
      FewBits(f, x);
      NothingRounded(f, v, shift);
    }
    DivideBy(Rounded(f, v, shift), Pow2(k), 0, Rounded(f, v, shift));
  }

  /** Shifting before rounding gives the significand nearest to the whole mantissa except where the bits shifted out
      alone tell an even significand's tie from more than half. */
  lemma RoundedIsNearest(f: Format, v: nat, shift: nat)
    requires f.Sane() && 0 < shift
    ensures Rounded(f, v, shift) == Nearest(v, Pow2(shift + 192 - f.Bits())) <==>
      !(v % Pow2(shift) != 0 && 2 * ((v / Pow2(shift)) % Unit(f.Bits())) == Unit(f.Bits())
        && (v / Pow2(shift) / Unit(f.Bits())) % 2 == 0)
  {
    hide Pow2, Nearest;
    Halves(191 - f.Bits());
    Pow2Adds(shift, 192 - f.Bits());
    ShiftThenRound(v, Pow2(shift), Unit(f.Bits()));
  }

  // ---------- The fields ----------

  /** The fraction field of a significand with its leading one. */
  function FractionOf(f: Format, significand: int): int {
    if f.explicitInt == 1 then significand else significand - Pow2(f.mantissa)
  }

  lemma SmallQuotient(n: nat, p: nat, q: nat)
    requires p > 0 && q * p <= n < (q + 1) * p
    ensures n / p == q
  {
    QuotientIs(n, p, q);
  }

  /** The leading one is taken out of the significand unless the format has a place for it, and the exponent is put
      in. */
  method PutFields(mant: array<Limb>, f: Format, biased: nat)
    requires f.Sane() && mant.Length == LIMBS && biased < Pow2(f.exponent)
    requires Pow2(f.mantissa) <= Kept(mant[..], f.Bits()) < Pow2(f.mantissa + 1)
    modifies mant
    ensures Kept(mant[..], f.Bits()) == Composed(f, false, biased, FractionOf(f, Kept(old(mant[..]), f.Bits())))
  {
    hide Kept, Pow2, Composed, FractionOf;
    ghost var k := Kept(mant[..], f.Bits());
    FieldFacts(f, k);
    FewerKept(mant[..], f.exponent + 1, f.Bits());
    if f.explicitInt == 0 {
      Adjust(mant, f.Bits(), f.exponent, -1);
      FewerKept(mant[..], f.exponent + 1, f.Bits());
    }
    Adjust(mant, f.Bits(), f.exponent, biased);
    FieldsCompose(f, k, biased, Pow2(f.Fraction()), Kept(mant[..], f.Bits()));
  }

  lemma FieldsCompose(f: Format, k: int, biased: nat, w: nat, r: int)
    requires f.Sane() && w == Pow2(f.Fraction()) && (f.explicitInt == 0 ==> FractionOf(f, k) == k - w)
    requires r == (if f.explicitInt == 0 then k + (-1) * w else k) + biased * w
    ensures r == Composed(f, false, biased, FractionOf(f, k))
  {
    hide Pow2;
  }

  lemma FieldFacts(f: Format, k: int)
    requires f.Sane() && Pow2(f.mantissa) <= k < Pow2(f.mantissa + 1)
    ensures f.Bits() - 1 - f.exponent == f.Fraction() && 0 <= FractionOf(f, k) < Pow2(f.Fraction())
    ensures k / Pow2(f.Fraction()) == 1 - f.explicitInt && FractionOf(f, k) / Pow2(f.Fraction()) == 0
    ensures Pow2(f.exponent + 1) == 2 * Pow2(f.exponent)
    ensures f.explicitInt == 0 ==> FractionOf(f, k) == k - Pow2(f.Fraction())
  {
    hide Pow2;
    Halves(f.mantissa);
    Halves(f.exponent);
    SmallQuotient(k, Pow2(f.Fraction()), 1 - f.explicitInt);
    SmallQuotient(FractionOf(f, k), Pow2(f.Fraction()), 0);
  }

  /** A significand that ran over is halved. */
  lemma HalvedKept(was: seq<Limb>, m: seq<Limb>, bits: nat)
    requires bits < 192 && Value(m) == Value(was) / 2
    ensures Kept(m, bits) == Kept(was, bits) / 2
  {
    var v, u := Value(was), Unit(bits);
    hide Value, Pow2, Unit;
    FloatShift.DivideTwice(v, 2, u);
    FloatShift.DivideTwice(v, u, 2);
    Commute(2, u);
  }

  lemma RunOver(f: Format, m: seq<Limb>)
    requires f.Sane() && |m| == LIMBS && 0 <= Kept(m, f.Bits()) <= Pow2(f.mantissa + 1)
    ensures Kept(m, f.Lead()) == if Kept(m, f.Bits()) == Pow2(f.mantissa + 1) then 1 else 0
  {
    FewerKept(m, f.Lead(), f.Bits());
    assert f.Bits() - f.Lead() == f.mantissa + 1;
    hide Kept, Pow2;
    var k, p := Kept(m, f.Bits()), Pow2(f.mantissa + 1);
    SmallQuotient(k, p, if k == p then 1 else 0);
  }

  lemma NormalFacts(f: Format, m: seq<Limb>)
    requires f.Sane() && |m| == LIMBS && Value(m) >= Pow2(191)
    ensures Pow2(f.mantissa) <= Rounded(f, Value(m), f.Lead()) <= Pow2(f.mantissa + 1)
    ensures Pow2(f.mantissa + 1) == 2 * Pow2(f.mantissa) && Pow2(1) == 2
  {
    MantissaBound(m);
    RoundedBound(f, Value(m), f.Lead(), f.Lead());
  }

  lemma DenormalFacts(f: Format, m: seq<Limb>, shift: nat)
    requires f.Sane() && |m| == LIMBS && f.Lead() < shift
    ensures 0 <= Rounded(f, Value(m), shift) <= Pow2(f.mantissa)
    ensures Pow2(f.mantissa + 1) == 2 * Pow2(f.mantissa)
  {
    MantissaBound(m);
    RoundedBound(f, Value(m), shift, f.Lead() + 1);
    assert f.Bits() - (f.Lead() + 1) == f.mantissa;
  }

  lemma OneFits(f: Format)
    requires f.Sane()
    ensures 4 <= Pow2(f.exponent)
  {
    assert Pow2(f.exponent) == 2 * Pow2(f.exponent - 1) == 4 * Pow2(f.exponent - 2);
  }

  /** Shift, round, and halve if that ran over. */
  method NormalSignificand(mant: array<Limb>, f: Format, stray: Limb) returns (over: bool)
    requires f.Sane() && mant.Length == LIMBS && Value(mant[..]) >= Pow2(191)
    modifies mant
    ensures var k, top := Rounded(f, old(Value(mant[..])), f.Lead()), Pow2(f.mantissa + 1);
      && Pow2(f.mantissa) <= k <= top && over == (k == top)
      && Kept(mant[..], f.Bits()) == if over then Pow2(f.mantissa) else k
  {
    hide Value, Kept, Pow2, Rounded;
    NormalFacts(f, mant[..]);
    var inside := ShiftAndRound(mant, f, f.Lead(), stray);
    RunOver(f, mant[..]);
    LastKeptBit(mant[..], f.Lead());
    over := TestBit(mant, f.Lead() - 1);
    if over {
      ghost var was := mant[..];
      inside := FloatShift.ShiftRight(mant, 1, stray);
      HalvedKept(was, mant[..], f.Bits());
    }
  }

  /** The normal case: the significand and the fields; true if that is too large. */
  method EncodeNormal(mant: array<Limb>, f: Format, exponent: int, stray: Limb) returns (infinite: bool)
    requires f.Sane() && mant.Length == LIMBS && Value(mant[..]) >= Pow2(191)
      && 2 - f.ExpMax() <= exponent <= f.ExpMax()
    modifies mant
    ensures var k, top := Rounded(f, old(Value(mant[..])), f.Lead()), Pow2(f.mantissa + 1);
      && Pow2(f.mantissa) <= k <= top && (infinite <==> k == top && exponent + 1 >= f.ExpMax())
      && (!infinite && k < top ==>
        Kept(mant[..], f.Bits()) == Composed(f, false, exponent + f.ExpMax() - 1, FractionOf(f, k)))
      && (!infinite && k == top ==>
        Kept(mant[..], f.Bits()) == Composed(f, false, exponent + f.ExpMax(), FractionOf(f, Pow2(f.mantissa))))
  {
    assert Pow2(f.exponent) == 2 * f.ExpMax() && Pow2(f.mantissa + 1) == 2 * Pow2(f.mantissa);
    hide Value, Kept, Pow2, Rounded, Composed, FractionOf;
    var over := NormalSignificand(mant, f, stray);
    var biased := exponent + f.ExpMax() - 1;
    if over {
      biased := biased + 1;
      if biased >= 2 * f.ExpMax() - 1 {
        return true;
      }
    }
    PutFields(mant, f, biased);
    return false;
  }

  function DenormalShift(f: Format, exponent: int): int
    requires f.Sane()
  {
    2 + f.Lead() - exponent - f.ExpMax()
  }

  /** The shift of a denormal number does not leave the mantissa. */
  predicate StaysInside(f: Format, v: nat, exponent: int)
    requires f.Sane()
  {
    v == 0 || exponent >= 2 - f.ExpMax() || DenormalShift(f, exponent) < 192 || DenormalShift(f, exponent) % 32 == 0
  }

  lemma AlwaysInside(f: Format, v: nat, exponent: int)
    requires f.Sane() && (v == 0 || exponent >= 2 - f.ExpMax())
    ensures StaysInside(f, v, exponent)
  {
  }

  method ClearAll(mant: array<Limb>)
    requires mant.Length == LIMBS
    modifies mant
    ensures Value(mant[..]) == 0
  {
    var i := 0;
    while i < LIMBS
      invariant i <= LIMBS && forall k :: 0 <= k < i ==> mant[k] == 0
    {
      mant[i] := 0;
      i := i + 1;
    }
    ZeroValue(mant[..]);
  }

  lemma ZeroKept(m: seq<Limb>, bits: nat)
    requires bits <= 192 && Value(m) == 0
    ensures Kept(m, bits) == 0
  {
    DivideBy(0, Unit(bits), 0, 0);
  }

  /** `is_zero` */
  method IsZero(mant: array<Limb>) returns (zero: bool)
    requires mant.Length == LIMBS
    ensures zero <==> Value(mant[..]) == 0
  {
    var i := 0;
    while i < LIMBS
      invariant i <= LIMBS && forall k :: 0 <= k < i ==> mant[k] == 0
    {
      if mant[i] != 0 {
        if Value(mant[..]) == 0 {
          ZeroLimbs(mant[..]);
        }
        return false;
      }
      i := i + 1;
    }
    ZeroValue(mant[..]);
    return true;
  }

  lemma LeadingOne(f: Format, m: seq<Limb>)
    requires f.Sane() && |m| == LIMBS && 0 <= Kept(m, f.Bits()) <= Pow2(f.mantissa)
    ensures Kept(m, f.Lead() + 1) == if Kept(m, f.Bits()) == Pow2(f.mantissa) then 1 else 0
  {
    FewerKept(m, f.Lead() + 1, f.Bits());
    assert f.Bits() - f.Lead() - 1 == f.mantissa;
    hide Kept, Pow2;
    var k, p := Kept(m, f.Bits()), Pow2(f.mantissa);
    SmallQuotient(k, p, if k == p then 1 else 0);
  }

  /** The denormal case: rounded up to the least normal number, flushed to zero, or left without its leading one. */
  method EncodeDenormal(mant: array<Limb>, f: Format, exponent: int, daz: bool, stray: Limb) returns (inside: bool)
    requires f.Sane() && mant.Length == LIMBS && exponent < 2 - f.ExpMax()
    modifies mant
    ensures var k := Rounded(f, old(Value(mant[..])), DenormalShift(f, exponent));
      && 0 <= k <= Pow2(f.mantissa)
      && Kept(mant[..], f.Bits())
        == if k == Pow2(f.mantissa) then Composed(f, false, 1, FractionOf(f, k)) else if daz then 0 else k
    ensures old(Value(mant[..])) > 0 ==> (inside <==> StaysInside(f, old(Value(mant[..])), exponent))
  {
    hide Value, Kept, Pow2, Rounded, Composed, FractionOf;
    DenormalFacts(f, mant[..], DenormalShift(f, exponent));
    OneFits(f);
    inside := ShiftAndRound(mant, f, DenormalShift(f, exponent), stray);
    LeadingOne(f, mant[..]);
    LastKeptBit(mant[..], f.Lead() + 1);
    var one := TestBit(mant, f.Lead());
    if one {
      PutFields(mant, f, 1);
    } else {
      var zero := IsZero(mant);
      if daz || zero {
        if zero {
          ZeroKept(mant[..], f.Bits());
        }
        ClearAll(mant);
        ZeroKept(mant[..], f.Bits());
      }
    }
  }

  method SetInfinite(mant: array<Limb>, f: Format)
    requires f.Sane() && mant.Length == LIMBS
    modifies mant
    ensures Kept(mant[..], f.Bits()) == Composed(f, false, Pow2(f.exponent) - 1, f.explicitInt * Pow2(f.mantissa))
  {
    hide Kept, Pow2, Value, Composed;
    InfinityFacts(f);
    ClearAll(mant);
    ZeroKept(mant[..], f.Bits());
    ZeroKept(mant[..], f.exponent + 1);
    var full := Pow2(f.exponent) - 1;
    Adjust(mant, f.Bits(), f.exponent, full);
    if f.explicitInt == 1 {
      FewerKept(mant[..], f.Lead() + 1, f.Bits());
      Adjust(mant, f.Bits(), f.Lead(), 1);
    }
    InfinityComposed(f, Kept(mant[..], f.Bits()), full);
  }

  lemma InfinityComposed(f: Format, k: int, full: int)
    requires f.Sane() && k == full * Pow2(f.Fraction()) + if f.explicitInt == 1 then 1 * Pow2(f.mantissa) else 0
    ensures k == Composed(f, false, full, f.explicitInt * Pow2(f.mantissa))
  {
    hide Pow2;
  }

  lemma InfinityFacts(f: Format)
    requires f.Sane()
    ensures f.Bits() - 1 - f.exponent == f.Fraction() && f.Bits() - 1 - f.Lead() == f.mantissa
    ensures Pow2(f.exponent + 1) == 2 * Pow2(f.exponent) && Pow2(f.Lead() + 1) == 2 * Pow2(f.Lead())
    ensures f.explicitInt == 1 ==> Pow2(f.Lead()) == 2 * Pow2(f.exponent)
    ensures f.explicitInt == 1 ==>
      ((Pow2(f.exponent) - 1) * Pow2(f.Fraction())) / Pow2(f.mantissa) == 2 * Pow2(f.exponent) - 2
  {
    if f.explicitInt == 1 {
      var e, m := Pow2(f.exponent), Pow2(f.mantissa);
      assert Pow2(f.Fraction()) == 2 * m;
      Associate(e - 1, 2, m);
      DivideBy((e - 1) * (2 * m), m, 2 * e - 2, 0);
    }
  }

  // ---------- The whole of it ----------

  /** What a mantissa and an exponent are written as; the mantissa counts as 1.mmm, and `exponent` is its power of
      two. */
  function Encoded(f: Format, negative: bool, daz: bool, v: nat, exponent: int): Float
    requires f.Sane()
  {
    var one := Pow2(f.mantissa);
    if v == 0 then Finite(negative, 0, 2 - f.ExpMax() - f.mantissa)
    else if exponent > f.ExpMax() then Infinite(negative)
    else if exponent >= 2 - f.ExpMax() then
      var k := Rounded(f, v, f.Lead());
      if k == 2 * one then (if exponent + 1 < f.ExpMax() then Finite(negative, one, exponent + 1 - f.mantissa)
        else Infinite(negative))
      else if exponent < f.ExpMax() then Finite(negative, k, exponent - f.mantissa)
      else if k == one then Infinite(negative)
      else NotANumber
    else
      var k := Rounded(f, v, DenormalShift(f, exponent));
      Finite(negative, if daz && k < one then 0 else k, 2 - f.ExpMax() - f.mantissa)
  }

  lemma QuotientAtMost(v: nat, s: nat, x: nat)
    requires s > 0
    ensures v / s <= x <==> v < (x + 1) * s
    ensures v / s >= x <==> v >= x * s
  {
    var q := v / s;
    assert v == q * s + v % s;
    if q <= x {
      Scale(q, x, s);
      Distribute(x, 1, s);
    } else {
      Scale(x + 1, q, s);
    }
    if q >= x {
      Scale(x, q, s);
    } else {
      Scale(q + 1, x, s);
      Distribute(q, 1, s);
    }
  }

  /** The quotients that are rounded to `one`, and those rounded to twice as much. */
  lemma NearestEnds(q: nat, h: nat, one: nat)
    requires h > 0 && one % 2 == 0 && one * (2 * h) <= q < (2 * one) * (2 * h)
    ensures Nearest(q, 2 * h) == one <==> q <= one * (2 * h) + h
    ensures Nearest(q, 2 * h) == 2 * one <==> q >= (2 * one) * (2 * h) - h
  {
    hide Nearest;
    NearestMeans(q, 2 * h, one);
    NearestMeans(q, 2 * h, 2 * one);
  }

  /** The powers of two that make up a significand: `s` is shifted out, `2 * h` is rounded away. */
  lemma Widths(f: Format, s: nat, h: nat, one: nat, low: nat, high: nat)
    requires f.Sane() && s == Pow2(f.Lead()) && h == Pow2(191 - f.Bits()) && one == Pow2(f.mantissa)
    requires low == one * (2 * h) && high == (2 * one) * (2 * h)
    ensures low * s == Pow2(191) && high * s == Pow2(192)
  {
    hide Pow2;
    Halves(191 - f.Bits());
    Halves(f.mantissa);
    TwoFactors(f, f.mantissa, one, 2 * h, s, low);
    TwoFactors(f, f.mantissa + 1, 2 * one, 2 * h, s, high);
  }

  lemma HalfWidths(f: Format, s: nat, h: nat, one: nat)
    requires f.Sane() && s == Pow2(f.Lead()) && h == Pow2(191 - f.Bits()) && one == Pow2(f.mantissa)
    ensures Unit(f.Bits()) == 2 * h && one % 2 == 0 && Pow2(f.mantissa + 1) == 2 * one
    ensures h * s == Pow2(190 - f.mantissa)
  {
    hide Pow2;
    Halves(191 - f.Bits());
    Halves(f.mantissa);
    Halves(f.mantissa - 1);
    Pow2Adds(191 - f.Bits(), f.Lead());
  }

  lemma Halves(n: nat)
    ensures Pow2(n + 1) == 2 * Pow2(n)
  {
  }

  lemma TwoFactors(f: Format, m: nat, a: nat, u: nat, s: nat, p: nat)
    requires f.Sane() && a == Pow2(m) && u == Pow2(192 - f.Bits()) && s == Pow2(f.Lead()) && p == a * u
    ensures p * s == Pow2(m + 191 - f.mantissa)
  {
    hide Pow2;
    Pow2Adds(m, 192 - f.Bits());
    Pow2Adds(m + (192 - f.Bits()), f.Lead());
    assert m + (192 - f.Bits()) + f.Lead() == m + 191 - f.mantissa;
  }

  /** The mantissas that are rounded to a power of two. */
  lemma RoundedToPower(f: Format, v: nat)
    requires f.Sane() && Pow2(191) <= v < Pow2(192)
    ensures Rounded(f, v, f.Lead()) == Pow2(f.mantissa) <==> v < Pow2(191) + Pow2(190 - f.mantissa) + Pow2(f.Lead())
    ensures Rounded(f, v, f.Lead()) == Pow2(f.mantissa + 1) <==> v >= Pow2(192) - Pow2(190 - f.mantissa)
  {
    hide Pow2, Nearest;
    var s, h, one := Pow2(f.Lead()), Pow2(191 - f.Bits()), Pow2(f.mantissa);
    HalfWidths(f, s, h, one);
    NotNegative(one, 2 * h);
    Scale(1, 2 * one, 2 * h);
    var low, high := one * (2 * h), (2 * one) * (2 * h);
    Widths(f, s, h, one, low, high);
    EndsOfQuotient(v, s, h, low, high);
    NearestEnds(v / s, h, one);
  }

  /** The same bounds before the division by `s`. */
  lemma EndsOfQuotient(v: nat, s: nat, h: nat, low: nat, high: nat)
    requires s > 0 && high >= h && low * s <= v < high * s
    ensures low <= v / s < high
    ensures v / s <= low + h <==> v < low * s + h * s + s
    ensures v / s >= high - h <==> v >= high * s - h * s
  {
    QuotientAtMost(v, s, low);
    QuotientAtMost(v, s, high);
    QuotientAtMost(v, s, low + h);
    QuotientAtMost(v, s, high - h);
    Distribute(low, h, s);
    Distribute(low + h, 1, s);
    Distribute(high - h, h, s);
  }

  /** A number just too large for the format: not so close to the first power of two out of reach, nor to the second,
      that it is rounded to it. */
  predicate JustTooLarge(f: Format, v: nat, exponent: int)
    requires f.Sane()
  {
    && exponent == f.ExpMax()
    && Pow2(191) + Pow2(190 - f.mantissa) + Pow2(f.Lead()) <= v < Pow2(192) - Pow2(190 - f.mantissa)
  }

  /** Such a number, and no other, is written with a full exponent field and a fraction: as not a number. */
  lemma NumberBecomesNaN(f: Format, negative: bool, daz: bool, v: nat, exponent: int)
    requires f.Sane() && Pow2(191) <= v < Pow2(192)
    ensures Encoded(f, negative, daz, v, exponent) == NotANumber <==> JustTooLarge(f, v, exponent)
  {
    hide Pow2, Rounded;
    ExpMaxIs(f);
    OneFits(f);
    NormalFactsOnly(f);
    RoundedToPower(f, v);
  }

  /** So one and a half times the first power of two that is too large - two to the 128 for a single - is not written as
      infinite but as not a number. */
  lemma TooLarge(f: Format, v: nat, n: nat)
    requires f.Sane() && n == 190 && v == 3 * Pow2(n)
    ensures Encoded(f, false, false, v, f.ExpMax()) == NotANumber
  {
    assert Pow2(192) == 2 * Pow2(191) == 4 * Pow2(n) == 8 * Pow2(n - 1);
    hide Pow2;
    Pow2Grows(190 - f.mantissa, n - 1);
    Pow2Grows(f.Lead(), n - 1);
    NumberBecomesNaN(f, false, false, v, f.ExpMax());
  }

  // ---------- From the fields to the number ----------

  /** The fields that a mantissa is to be written with. */
  datatype Fields = Fields(biased: nat, fraction: nat)

  ghost predicate Fit(f: Format, x: Fields) {
    x.biased < Pow2(f.exponent) && x.fraction < Pow2(f.Fraction())
  }

  lemma NormalParts(f: Format, negative: bool, biased: nat, k: int)
    requires f.Sane() && 1 <= biased < Pow2(f.exponent) && Pow2(f.mantissa) <= k < Pow2(f.mantissa + 1)
    ensures 0 <= FractionOf(f, k) && Fit(f, Fields(biased, FractionOf(f, k)))
    ensures Parts(f, negative, biased, FractionOf(f, k)) ==
      if biased < Pow2(f.exponent) - 1 then Finite(negative, k, biased - (f.ExpMax() - 1) - f.mantissa)
      else if k == Pow2(f.mantissa) then Infinite(negative) else NotANumber
  {
    FieldFacts(f, k);
    hide Pow2;
  }

  lemma DenormalParts(f: Format, negative: bool, k: nat)
    requires f.Sane() && k < Pow2(f.mantissa)
    ensures Fit(f, Fields(0, k)) && Parts(f, negative, 0, k) == Finite(negative, k, 2 - f.ExpMax() - f.mantissa)
    ensures Composed(f, false, 0, k) == k
  {
    OneFits(f);
    Pow2Grows(f.mantissa, f.Fraction());
    hide Pow2;
  }

  lemma InfinityParts(f: Format, negative: bool)
    requires f.Sane()
    ensures f.explicitInt * Pow2(f.mantissa) >= 0
      && Fit(f, Fields(Pow2(f.exponent) - 1, f.explicitInt * Pow2(f.mantissa)))
    ensures Parts(f, negative, Pow2(f.exponent) - 1, f.explicitInt * Pow2(f.mantissa)) == Infinite(negative)
  {
    hide Pow2;
    FractionWidth(f);
  }

  lemma FractionWidth(f: Format)
    requires f.Sane()
    ensures f.explicitInt * Pow2(f.mantissa) == if f.explicitInt == 1 then Pow2(f.mantissa) else 0
    ensures Pow2(f.Fraction()) == if f.explicitInt == 1 then 2 * Pow2(f.mantissa) else Pow2(f.mantissa)
  {
  }

  /** The fields of a number. */
  ghost function FieldsOf(f: Format, daz: bool, v: nat, exponent: int): Fields
    requires f.Sane() && v < Pow2(192) && (v == 0 || v >= Pow2(191))
  {
    FieldsAreNatural(f, v, exponent);
    var one := Pow2(f.mantissa);
    var full := Fields(Pow2(f.exponent) - 1, f.explicitInt * one);
    if v == 0 then Fields(0, 0)
    else if exponent > f.ExpMax() then full
    else if exponent >= 2 - f.ExpMax() then
      var k := Rounded(f, v, f.Lead());
      if k < 2 * one then Fields(exponent + f.ExpMax() - 1, FractionOf(f, k))
      else if exponent + 1 < f.ExpMax() then Fields(exponent + f.ExpMax(), FractionOf(f, one))
      else full
    else
      var k := Rounded(f, v, DenormalShift(f, exponent));
      if k == one then Fields(1, FractionOf(f, one)) else if daz then Fields(0, 0) else Fields(0, k)
  }

  /** Case by case. */
  lemma FieldsAre(f: Format, daz: bool, v: nat, exponent: int, x: Fields)
    requires f.Sane() && v < Pow2(192) && (v == 0 || v >= Pow2(191)) && x == FieldsOf(f, daz, v, exponent)
    ensures v == 0 ==> x == Fields(0, 0)
    ensures v > 0 && exponent > f.ExpMax() ==>
      x.biased == Pow2(f.exponent) - 1 && x.fraction == f.explicitInt * Pow2(f.mantissa)
    ensures v > 0 && 2 - f.ExpMax() <= exponent <= f.ExpMax() ==>
      var k := Rounded(f, v, f.Lead());
      if k < 2 * Pow2(f.mantissa) then x.biased == exponent + f.ExpMax() - 1 && x.fraction == FractionOf(f, k)
      else if exponent + 1 < f.ExpMax() then
        x.biased == exponent + f.ExpMax() && x.fraction == FractionOf(f, Pow2(f.mantissa))
      else x.biased == Pow2(f.exponent) - 1 && x.fraction == f.explicitInt * Pow2(f.mantissa)
    ensures v > 0 && exponent < 2 - f.ExpMax() ==>
      var k := Rounded(f, v, DenormalShift(f, exponent));
      if k == Pow2(f.mantissa) then x.biased == 1 && x.fraction == FractionOf(f, k)
      else x.biased == 0 && x.fraction == if daz then 0 else k
  {
    hide Pow2, Rounded, FractionOf;
    ExpMaxIs(f);
    OneFits(f);
  }

  lemma FieldsAreNatural(f: Format, v: nat, exponent: int)
    requires f.Sane() && v < Pow2(192) && (v == 0 || v >= Pow2(191))
    ensures 4 <= Pow2(f.exponent) == 2 * f.ExpMax() && f.explicitInt * Pow2(f.mantissa) >= 0
      && FractionOf(f, Pow2(f.mantissa)) >= 0
    ensures v > 0 ==>
      Pow2(f.mantissa) <= Rounded(f, v, f.Lead()) <= 2 * Pow2(f.mantissa)
      && FractionOf(f, Rounded(f, v, f.Lead())) >= 0
    ensures exponent < 2 - f.ExpMax() ==>
      0 <= Rounded(f, v, DenormalShift(f, exponent)) <= Pow2(f.mantissa)
  {
    hide Pow2, Rounded;
    OneFits(f);
    ExpMaxIs(f);
    FractionWidth(f);
    NormalFactsOnly(f);
    RoundedBound(f, v, f.Lead(), f.Lead());
    if exponent < 2 - f.ExpMax() {
      RoundedBound(f, v, DenormalShift(f, exponent), f.Lead() + 1);
    }
  }

  lemma ExpMaxIs(f: Format)
    requires f.Sane()
    ensures Pow2(f.exponent) == 2 * f.ExpMax()
  {
  }

  /** Those fields stand for what is to be written. */
  lemma FieldsStandFor(f: Format, negative: bool, daz: bool, v: nat, exponent: int)
    requires f.Sane() && v < Pow2(192) && (v == 0 || v >= Pow2(191))
    ensures var x := FieldsOf(f, daz, v, exponent);
      Fit(f, x)
      && Parts(f, negative, x.biased, x.fraction) == Encoded(f, negative, daz, v, exponent)
  {
    hide Pow2, Rounded, Parts, FractionOf, Fit;
    FieldsAreNatural(f, v, exponent);
    InfinityParts(f, negative);
    DenormalParts(f, negative, 0);
    NormalFactsOnly(f);
    if v > 0 && 2 - f.ExpMax() <= exponent <= f.ExpMax() {
      var k := Rounded(f, v, f.Lead());
      if k < 2 * Pow2(f.mantissa) {
        NormalParts(f, negative, exponent + f.ExpMax() - 1, k);
      } else if exponent + 1 < f.ExpMax() {
        NormalParts(f, negative, exponent + f.ExpMax(), Pow2(f.mantissa));
      }
    } else if v > 0 && exponent < 2 - f.ExpMax() {
      var k := Rounded(f, v, DenormalShift(f, exponent));
      if k == Pow2(f.mantissa) {
        NormalParts(f, negative, 1, k);
      } else {
        DenormalParts(f, negative, k);
      }
    }
  }

  lemma NormalFactsOnly(f: Format)
    ensures Pow2(f.mantissa + 1) == 2 * Pow2(f.mantissa)
  {
  }

  // ---------- The whole of `to_float` ----------

  lemma TopLimb(m: seq<Limb>)
    requires |m| == LIMBS
    ensures m[0] >= TOP <==> Value(m) >= Pow2(191)
  {
    hide Value, BPow, Pow2;
    FloatMultiply.FirstLimb(m);
    FloatShift.BPowIsPow2(5);
    WordPowers();
    Pow2Adds(31, 160);
  }

  /** The mantissa becomes the number's fields, without a sign. */
  method Encode(mant: array<Limb>, f: Format, exponent: int, daz: bool, stray: Limb) returns (inside: bool)
    requires f.Sane() && mant.Length == LIMBS && Value(mant[..]) < Pow2(192)
    requires Value(mant[..]) == 0 || Value(mant[..]) >= Pow2(191)
    modifies mant
    ensures var x := FieldsOf(f, daz, old(Value(mant[..])), exponent);
      Kept(mant[..], f.Bits())
      == Composed(f, false, x.biased, x.fraction)
    ensures inside <==> StaysInside(f, old(Value(mant[..])), exponent)
  {
    hide Value, Kept, Pow2, Rounded, FractionOf, Composed, StaysInside, FieldsOf;
    ghost var v := Value(mant[..]);
    ghost var x := FieldsOf(f, daz, v, exponent);
    FieldsAre(f, daz, v, exponent, x);
    FieldsAreNatural(f, v, exponent);
    NormalFactsOnly(f);
    TopLimb(mant[..]);
    NothingComposed(f);
    inside := true;
    if mant[0] >= TOP {
      var infinite := exponent > f.ExpMax();
      if 2 - f.ExpMax() <= exponent <= f.ExpMax() {
        infinite := EncodeNormal(mant, f, exponent, stray);
      } else if !infinite {
        inside := EncodeDenormal(mant, f, exponent, daz, stray);
        ghost var k := Rounded(f, v, DenormalShift(f, exponent));
        if k < Pow2(f.mantissa) {
          DenormalParts(f, false, k);
        }
      }
      if infinite {
        SetInfinite(mant, f);
      }
    } else {
      ClearAll(mant);
      ZeroKept(mant[..], f.Bits());
    }
    if v == 0 || exponent >= 2 - f.ExpMax() {
      AlwaysInside(f, v, exponent);
    }
  }

  lemma NothingComposed(f: Format)
    requires f.Sane()
    ensures Composed(f, false, 0, 0) == 0
  {
  }

  lemma ByteOf(h: nat, q: nat, y: nat)
    ensures (h * (256 * q) + y) % 256 == y % 256
  {
    Commute(256, q);
    Associate(h, q, 256);
    Distribute(h * q, y / 256, 256);
    DivideBy(h * (256 * q) + y, 256, h * q + y / 256, y % 256);
  }

  /** Byte `i` of a mantissa, counted from the first. */
  lemma ByteAt(m: seq<Limb>, i: nat)
    requires |m| == LIMBS && i < 16
    ensures (m[i / 4] / Pow2(8 * (3 - i % 4))) % 256 == Kept(m, 8 * (i + 1)) % 256
    ensures Kept(m, 8 * (i + 1)) / 256 == Kept(m, 8 * i)
  {
    hide Kept, Pow2, Value;
    var bits := 8 * (i + 1);
    var j, p := bits / 32, bits % 32;
    KeptIs(m, bits, j, p);
    FewerKept(m, 8 * i, bits);
    EightBits(p);
    if p > 0 {
      assert j == i / 4 && 32 - p == 8 * (3 - i % 4);
      DividedIsSmaller(m[j], Pow2(32 - p));
      ByteOf(Value(m[..j]), Pow2(p - 8), m[j] / Pow2(32 - p));
    } else {
      assert j == i / 4 + 1 && 8 * (3 - i % 4) == 0;
      var d := m[j - 1];
      assert m[..j] == m[..j - 1] + [d];
      ValueSnoc(m[..j - 1], d);
      ByteOf(Value(m[..j - 1]), 0x100_0000, d);
      assert m[j] / Pow2(32) == 0;
    }
  }

  lemma EightBits(p: nat)
    ensures Pow2(8) == 256 && Pow2(32) == BASE && Pow2(0) == 1
    ensures p >= 8 ==> Pow2(p) == 256 * Pow2(p - 8)
  {
    WordPowers();
    if p >= 8 {
      Pow2Adds(8, p - 8);
    }
  }

  /** The last loop: the kept bytes, last one first. */
  method WriteBytes(mant: array<Limb>, bytes: nat) returns (result: seq<Byte>)
    requires mant.Length == LIMBS && bytes <= 16 && Kept(mant[..], 8 * bytes) >= 0
    ensures result == Little(Kept(mant[..], 8 * bytes), bytes)
  {
    hide Kept, Pow2;
    ghost var m := mant[..];
    result := [];
    var i := bytes;
    while i > 0
      invariant 0 <= i <= bytes && Kept(m, 8 * i) >= 0
      invariant result + Little(Kept(m, 8 * i), i) == Little(Kept(m, 8 * bytes), bytes)
    {
      i := i - 1;
      ByteAt(m, i);
      result := result + [(mant[i / 4] / Pow2(8 * (3 - i % 4))) % 256];
    }
  }

  lemma NoSignYet(f: Format, x: Fields)
    requires f.Sane() && Fit(f, x)
    ensures 0 <= Composed(f, false, x.biased, x.fraction) < Pow2(f.Bits() - 1) && Pow2(1) == 2
  {
    Pow2Adds(f.exponent, f.Fraction());
    assert f.Bits() - 1 == f.exponent + f.Fraction() && Pow2(1) == 2 * Pow2(0);
    hide Pow2;
    var w := Pow2(f.Fraction());
    NotNegative(x.biased, w);
    Scale(x.biased + 1, Pow2(f.exponent), w);
    Distribute(x.biased, 1, w);
  }

  /** The sign is the first bit. */
  method PutSign(mant: array<Limb>, f: Format, minus: bool, ghost x: Fields)
    requires f.Sane() && mant.Length == LIMBS && Fit(f, x)
      && Kept(mant[..], f.Bits()) == Composed(f, false, x.biased, x.fraction)
    modifies mant
    ensures Kept(mant[..], f.Bits()) == Composed(f, minus, x.biased, x.fraction)
  {
    hide Kept, Pow2, Fit, Composed;
    NoSignYet(f, x);
    SignAdds(f, x);
    FewerKept(mant[..], 1, f.Bits());
    SmallQuotient(Composed(f, false, x.biased, x.fraction), Pow2(f.Bits() - 1), 0);
    if minus {
      Adjust(mant, f.Bits(), 0, 1);
    }
  }

  lemma SignAdds(f: Format, x: Fields)
    requires f.Sane()
    ensures Composed(f, true, x.biased, x.fraction)
      == Composed(f, false, x.biased, x.fraction) + 1 * Pow2(f.Bits() - 1 - 0)
  {
    hide Pow2;
  }

  /** `to_float`, once the mantissa and its power of two are known: the bytes are read back as what is to be written. */
  method ToFloat(mant: array<Limb>, f: Format, exponent: int, minus: bool, daz: bool, stray: Limb)
    returns (result: seq<Byte>, inside: bool)
    requires f.Sane() && mant.Length == LIMBS && (Value(mant[..]) == 0 || Value(mant[..]) >= Pow2(191))
    modifies mant
    ensures |result| == f.bytes
      && Decode(f, FromLittle(result)) == Encoded(f, minus, daz, old(Value(mant[..])), exponent - 1)
    ensures old(Value(mant[..])) > 0 ==>
      (Decode(f, FromLittle(result)) == NotANumber <==> JustTooLarge(f, old(Value(mant[..])), exponent - 1))
    ensures inside <==> StaysInside(f, old(Value(mant[..])), exponent - 1)
  {
    hide Value, Kept, Pow2, Rounded, Encoded, StaysInside, JustTooLarge, Composed, Decode, Parts, FieldsOf, Fit;
    ghost var v := Value(mant[..]);
    MantissaBound(mant[..]);
    inside := Encode(mant, f, exponent - 1, daz, stray);
    ghost var x := FieldsOf(f, daz, v, exponent - 1);
    FieldsStandFor(f, minus, daz, v, exponent - 1);
    if v > 0 {
      NumberBecomesNaN(f, minus, daz, v, exponent - 1);
    }
    PutSign(mant, f, minus, x);
    ReadBack(f, minus, x);
    result := WriteBytes(mant, f.bytes);
  }

  // ---------- NaN ----------

  /** `set_bit`, where the bit is clear: the kept bits gain it. */
  method SetBit(mant: array<Limb>, at: nat, bits: nat)
    requires mant.Length == LIMBS && at < bits < 192 && Kept(mant[..], at + 1) % 2 == 0
    modifies mant
    ensures Kept(mant[..], bits) == Kept(old(mant[..]), bits) + Pow2(bits - 1 - at)
  {
    hide Kept, Value, BPow, Pow2;
    ghost var m := mant[..];
    var k, t := at / 32, Pow2(31 - at % 32);
    LastKeptBit(m, at + 1);
    ClearBitFits(m[k], t, at % 32);
    AddAt(m, k, t);
    mant[k] := mant[k] + t;
    assert m[k := m[k] + t] == mant[..];
    BitAdded(m, mant[..], at, bits);
  }

  lemma ClearBitFits(x: Limb, t: nat, p: nat)
    requires p < 32 && t == Pow2(31 - p) && (x / t) % 2 == 0
    ensures 0 <= x + 1 * t < BASE
  {
    hide Pow2;
    FloatShift.TwoParts(p + 1);
    Halves(p);
    FloatShift.QuotientFits(x, t, Pow2(p + 1));
    FirstLimbFits(x, 1, t, Pow2(p + 1), x / t);
  }

  lemma BitAdded(m: seq<Limb>, r: seq<Limb>, at: nat, bits: nat)
    requires at < bits < 192 && Value(r) == Value(m) + Pow2(31 - at % 32) * BPow(5 - at / 32)
    ensures Kept(r, bits) == Kept(m, bits) + Pow2(bits - 1 - at)
  {
    hide Pow2, Value, BPow;
    FloatShift.BPowIsPow2(5 - at / 32);
    Pow2Adds(31 - at % 32, 32 * (5 - at / 32));
    Pow2Adds(bits - 1 - at, 192 - bits);
    assert 31 - at % 32 + 32 * (5 - at / 32) == 191 - at == bits - 1 - at + (192 - bits);
    KeptAdds(Value(m), Pow2(31 - at % 32) * BPow(5 - at / 32), Unit(bits), Pow2(bits - 1 - at));
  }

  /** What is written for the special names, and for a text that cannot be read. */
  datatype Special = Quiet | Signalling | Unlimited

  /** The place in the fraction, from its last bit, of the bit that makes a NaN. */
  function NaNBit(f: Format, quiet: bool): nat
    requires f.Sane()
  {
    if quiet then f.mantissa - 1 else 0
  }

  function NaNFraction(f: Format, quiet: bool): nat
    requires f.Sane()
  {
    (if f.explicitInt == 1 then Pow2(f.mantissa) else 0) + Pow2(NaNBit(f, quiet))
  }

  /** The fields of infinity are a multiple of two to the number of mantissa bits. */
  lemma InfinityIsEven(f: Format, full: nat, j: nat)
    requires f.Sane() && j < f.mantissa
    ensures (Composed(f, false, full, f.explicitInt * Pow2(f.mantissa)) / Pow2(j)) % 2 == 0
  {
    hide Pow2;
    Halves(f.mantissa);
    FractionWidth(f);
    Pow2Adds(f.mantissa - j - 1, j);
    Halves(f.mantissa - j - 1);
    Halves(f.mantissa - 1);
    var e, p := Pow2(f.mantissa - j - 1), Pow2(j);
    var c := if f.explicitInt == 1 then 2 * full + 1 else full;
    InfinityIs(f, full, c);
    EvenQuotient(c, e, p, Pow2(f.mantissa));
  }

  lemma InfinityIs(f: Format, full: nat, c: nat)
    requires f.Sane() && c == if f.explicitInt == 1 then 2 * full + 1 else full
    ensures Composed(f, false, full, f.explicitInt * Pow2(f.mantissa)) == c * Pow2(f.mantissa)
  {
    hide Pow2;
    FractionWidth(f);
    var m := Pow2(f.mantissa);
    if f.explicitInt == 1 {
      Associate(full, 2, m);
      Distribute(full * 2, 1, m);
    }
  }

  lemma EvenQuotient(c: nat, e: nat, p: nat, m: nat)
    requires p > 0 && m == 2 * (e * p)
    ensures ((c * m) / p) % 2 == 0
  {
    Associate(2, e, p);
    Associate(c, 2 * e, p);
    NotNegative(c, e);
    assert c * (2 * e) == 2 * (c * e);
    DivideBy(c * m, p, 2 * (c * e), 0);
  }

  method SetNaN(mant: array<Limb>, f: Format, quiet: bool)
    requires f.Sane() && mant.Length == LIMBS
    modifies mant
    ensures Kept(mant[..], f.Bits()) == Composed(f, false, Pow2(f.exponent) - 1, NaNFraction(f, quiet))
  {
    hide Kept, Value, Pow2, Composed;
    SetInfinite(mant, f);
    var at := f.Bits() - 1 - NaNBit(f, quiet);
    OneFits(f);
    FewerKept(mant[..], at + 1, f.Bits());
    InfinityIsEven(f, Pow2(f.exponent) - 1, NaNBit(f, quiet));
    SetBit(mant, at, f.Bits());
    FractionAdds(f, Pow2(f.exponent) - 1, quiet);
  }

  lemma FractionAdds(f: Format, full: nat, quiet: bool)
    requires f.Sane()
    ensures Composed(f, false, full, f.explicitInt * Pow2(f.mantissa)) + Pow2(NaNBit(f, quiet))
      == Composed(f, false, full, NaNFraction(f, quiet))
  {
    hide Pow2;
    FractionWidth(f);
  }

  lemma NaNParts(f: Format, negative: bool, quiet: bool)
    requires f.Sane()
    ensures Pow2(f.exponent) >= 4 && Fit(f, Fields(Pow2(f.exponent) - 1, NaNFraction(f, quiet)))
    ensures Parts(f, negative, Pow2(f.exponent) - 1, NaNFraction(f, quiet)) == NotANumber
  {
    hide Pow2;
    OneFits(f);
    FractionWidth(f);
    Halves(f.mantissa - 1);
    Pow2Grows(NaNBit(f, quiet), f.mantissa - 1);
  }

  /** A NaN; where the fraction has more than one bit, the first of them is set in a quiet one and clear in a
      signalling one. */
  predicate IsNaN(f: Format, n: nat, quiet: bool)
    requires f.Sane()
  {
    Decode(f, n) == NotANumber && (f.mantissa > 1 ==> (n / Pow2(f.mantissa - 1)) % 2 == if quiet then 1 else 0)
  }

  /** The bytes of a NaN or of infinity. */
  method WriteSpecial(mant: array<Limb>, f: Format, kind: Special, minus: bool) returns (result: seq<Byte>)
    requires f.Sane() && mant.Length == LIMBS
    modifies mant
    ensures |result| == f.bytes
    ensures Decode(f, FromLittle(result)) == if kind == Unlimited then Infinite(minus) else NotANumber
    ensures kind != Unlimited ==> IsNaN(f, FromLittle(result), kind == Quiet)
  {
    hide Kept, Value, Pow2, Composed, Decode, Parts, Fit, NaNFraction;
    ghost var x;
    InfinityParts(f, minus);
    NaNParts(f, minus, kind == Quiet);
    if kind == Unlimited {
      SetInfinite(mant, f);
      x := Fields(Pow2(f.exponent) - 1, f.explicitInt * Pow2(f.mantissa));
    } else {
      SetNaN(mant, f, kind == Quiet);
      if f.mantissa > 1 {
        QuietBit(f, minus, kind == Quiet);
      }
      x := Fields(Pow2(f.exponent) - 1, NaNFraction(f, kind == Quiet));
    }
    PutSign(mant, f, minus, x);
    ReadBack(f, minus, x);
    result := WriteBytes(mant, f.bytes);
  }

  /** The first bit of the fraction tells a quiet NaN from a signalling one. */
  lemma QuietBit(f: Format, negative: bool, quiet: bool)
    requires f.Sane() && f.mantissa > 1
    ensures (Composed(f, negative, Pow2(f.exponent) - 1, NaNFraction(f, quiet)) / Pow2(f.mantissa - 1)) % 2
      == if quiet then 1 else 0
  {
    hide Pow2;
    OneFits(f);
    FieldWidths(f);
    Halves(f.mantissa - 1);
    FractionWidth(f);
    var full, h, j := Pow2(f.exponent) - 1, Pow2(f.mantissa - 1), Pow2(NaNBit(f, quiet));
    Pow2Adds(f.Bits() - 1 - f.mantissa, f.mantissa);
    var top := if negative then Pow2(f.Bits() - 1 - f.mantissa) else 0;
    var c := (if f.explicitInt == 1 then 2 * full + 1 else full) + top;
    NaNIs(f, negative, full, c, top, quiet);
    if !quiet {
      Pow2Grows(1, f.mantissa - 1);
      Halves(0);
      NoPower();
    }
    OddQuotient(c, h, 2 * h, j, quiet);
  }

  lemma NaNIs(f: Format, negative: bool, full: nat, c: nat, top: nat, quiet: bool)
    requires f.Sane() && top * Pow2(f.mantissa) == if negative then Pow2(f.Bits() - 1) else 0
    requires c == (if f.explicitInt == 1 then 2 * full + 1 else full) + top
    ensures Composed(f, negative, full, NaNFraction(f, quiet)) == c * Pow2(f.mantissa) + Pow2(NaNBit(f, quiet))
  {
    hide Pow2;
    InfinityIs(f, full, c - top);
    FractionAdds(f, full, quiet);
    Distribute(c - top, top, Pow2(f.mantissa));
  }

  lemma OddQuotient(c: nat, h: nat, m: nat, j: nat, quiet: bool)
    requires h > 0 && m == 2 * h && (if quiet then j == h else j < h)
    ensures ((c * m + j) / h) % 2 == if quiet then 1 else 0
  {
    Associate(c, 2, h);
    if quiet {
      Distribute(c * 2, 1, h);
      DivideBy(c * m + j, h, c * 2 + 1, 0);
    } else {
      DivideBy(c * m + j, h, c * 2, j);
    }
  }

  lemma ReadBack(f: Format, minus: bool, x: Fields)
    requires f.Sane() && Fit(f, x)
    ensures Composed(f, minus, x.biased, x.fraction) >= 0
    ensures FromLittle(Little(Composed(f, minus, x.biased, x.fraction), f.bytes))
      == Composed(f, minus, x.biased, x.fraction)
    ensures Decode(f, FromLittle(Little(Composed(f, minus, x.biased, x.fraction), f.bytes)))
      == Parts(f, minus, x.biased, x.fraction)
  {
    hide Pow2, Composed, Decode, Parts;
    DecodeComposed(f, minus, x.biased, x.fraction);
    CapacityIs(f.bytes);
    LittleExact(Composed(f, minus, x.biased, x.fraction), f.bytes);
  }
}
