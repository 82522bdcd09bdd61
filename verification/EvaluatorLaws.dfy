/**
 What the evaluator computes (asm/aasm-eval.cpp, rexp0 to expr6), stated of the values that token strings
 evaluate to, by the laws of arithmetic, bits and truth values, and by a table of the operators.
 */
module EvaluatorLaws {
  import opened Common
  import opened Powers
  import opened Vectors
  import opened Evaluator

  // ---------- Values of short expressions ----------

  function Evaluated(seg: SegmentPart, ts: seq<Token>): Option<Vector> {
    var p := Parse(Computed(MachineOp, seg), 0, 0, ts);
    if p.Ok? && p.rest == [] then Some(p.value) else None
  }

  /** The number that a token string evaluates to, if it evaluates to one. */
  function NumberOf(seg: SegmentPart, ts: seq<Token>): Option<Word> {
    var v := Evaluated(seg, ts);
    if v.None? || !HoldsNumber(v.value) then None
    else Some(if v.value == [] then 0 else v.value[0].value)
  }

  function Pair(e: Vector, op: BinaryOp, f: Vector): seq<Token> {
    [Atom(Some(e)), Binary(op), Atom(Some(f))]
  }

  /** The number that `a op b` evaluates to. */
  function Result(seg: SegmentPart, op: BinaryOp, a: Word, b: Word): Option<Word> {
    NumberOf(seg, Pair(Scalar(a), op, Scalar(b)))
  }

  lemma PairEvaluates(seg: SegmentPart, e: Vector, op: BinaryOp, f: Vector)
    ensures Evaluated(seg, Pair(e, op, f)) == Combine(MachineOp, op, e, f)
  {
    var alg, t := Computed(MachineOp, seg), Node(op, Leaf(e), Leaf(f));
    ParseTree(alg, 0, 0, t, []);
    assert Tokens(t) + [] == Pair(e, op, f);
  }

  lemma ResultIs(seg: SegmentPart, op: BinaryOp, a: Word, b: Word)
    requires OpInRange(op, a, b)
    ensures Result(seg, op, a, b) == NumberOp(MachineOp, op, a, b)
  {
    PairEvaluates(seg, Scalar(a), op, Scalar(b));
    NumberVector(Scalar(a));
    NumberVector(Scalar(b));
    CombineCarries(MachineOp, op, Scalar(a), Scalar(b));
    var c := Combine(MachineOp, op, Scalar(a), Scalar(b));
    if c.Some? {
      NumberVector(c.value);
    }
  }

  // ---------- Arithmetic ----------

  /** Equal up to a multiple of 2^64. */
  predicate Congruent(x: int, y: int) {
    (x - y) % 0x1_0000_0000_0000_0000 == 0
  }

  lemma Reduced(x: int)
    ensures Congruent(Wrapped(x), x)
  {
    assert Wrapped(x) - x == -(x / TWO64) * TWO64;
  }

  lemma MinusIsCongruent(a: Word, b: Word)
    ensures Congruent(Minus(a, b), a - b)
  {
  }

  lemma SumLaw(seg: SegmentPart, a: Word, b: Word)
    ensures var r := Result(seg, Add, a, b); r.Some? && Congruent(r.value, a + b)
    ensures var r := Result(seg, Sub, a, b); r.Some? && Congruent(r.value, a - b)
    ensures var r := Result(seg, Mul, a, b); r.Some? && Congruent(r.value, a * b)
  {
    hide Result, Congruent, Wrapped;
    ResultIs(seg, Add, a, b);
    ResultIs(seg, Sub, a, b);
    ResultIs(seg, Mul, a, b);
    Reduced(a + b);
    Reduced(a * b);
    MinusIsCongruent(a, b);
  }

  /** `/` and `%` are quotient and remainder; dividing by zero is an error. */
  lemma DivisionLaw(seg: SegmentPart, a: Word, b: Word)
    ensures var q, r := Result(seg, Div, a, b), Result(seg, Mod, a, b);
      if b == 0 then q.None? && r.None?
      else q.Some? && r.Some? && a == q.value * b + r.value && r.value < b
  {
    hide Result;
    ResultIs(seg, Div, a, b);
    ResultIs(seg, Mod, a, b);
  }

  /** `//` and `%%` divide two's complement numbers toward zero, but for the one quotient that is too large. */
  lemma SignedDivisionLaw(seg: SegmentPart, a: Word, b: Word)
    requires !(Signed(a) == -0x8000_0000_0000_0000 && Signed(b) == -1)
    ensures var q, r := Result(seg, SDiv, a, b), Result(seg, SMod, a, b);
      if b == 0 then q.None? && r.None?
      else
        && q.Some? && r.Some? && Signed(a) == Signed(q.value) * Signed(b) + Signed(r.value)
        && Distance(0, Signed(r.value)) < Distance(0, Signed(b))
        && (r.value == 0 || (Signed(r.value) < 0) == (Signed(a) < 0))
  {
    hide Result;
    ResultIs(seg, SDiv, a, b);
    ResultIs(seg, SMod, a, b);
    if b != 0 {
      var x, y := Signed(a), Signed(b);
      TruncatedDivision(x, y);
      SignedWrapped(Quotient(x, y));
      SignedWrapped(Remainder(x, y));
    }
  }

  lemma SignedWrapped(x: int)
    requires -0x8000_0000_0000_0000 <= x < 0x8000_0000_0000_0000
    ensures Signed(Wrapped(x)) == x && (Wrapped(x) == 0 <==> x == 0)
  {
  }

  lemma TruncatedDivision(x: int, y: int)
    requires -0x8000_0000_0000_0000 <= x < 0x8000_0000_0000_0000 && y != 0
    requires !(x == -0x8000_0000_0000_0000 && y == -1)
    ensures var q, r := Quotient(x, y), Remainder(x, y);
      && x == q * y + r && Distance(0, r) < Distance(0, y) && (r == 0 || (r < 0) == (x < 0))
      && -0x8000_0000_0000_0000 <= q < 0x8000_0000_0000_0000
      && -0x8000_0000_0000_0000 <= r < 0x8000_0000_0000_0000
  {
    var m, n := Distance(0, x), Distance(0, y);
    DividedIsSmaller(m, n);
    assert m == (m / n) * n + m % n;
    QuotientMagnitude(x, y, m / n, m % n);
  }

  lemma MagnitudesDivided(m: nat, y: int, k: nat, r: nat)
    requires y != 0 && r < Distance(0, y) && m == k * Distance(0, y) + r
    ensures m / y == if y < 0 then 0 - k else k
    ensures (m / y) * y == m - r
  {
    if y > 0 {
      DivideBy(m, y, k, r);
    } else {
      assert (0 - k) * y == k * -y;
      NegativeDivisor(m, y, k, r);
    }
  }

  /** The quotient of the magnitudes, with a sign. */
  lemma QuotientMagnitude(x: int, y: int, k: nat, r: nat)
    requires y != 0 && r < Distance(0, y) && Distance(0, x) == k * Distance(0, y) + r && k <= Distance(0, x)
    ensures Quotient(x, y) == (if (x < 0) == (y < 0) then k else 0 - k)
    ensures Remainder(x, y) == if x < 0 then 0 - r else r
    ensures k == Distance(0, x) && x != 0 ==> Distance(0, y) == 1
  {
    if x < 0 {
      MagnitudesDivided(-x, y, k, r);
    } else {
      MagnitudesDivided(x, y, k, r);
    }
    if k == Distance(0, x) && x != 0 && Distance(0, y) > 1 {
      Scale(2, Distance(0, y), k);
    }
  }

  lemma NegativeDivisor(m: nat, y: int, k: nat, r: nat)
    requires y < 0 && r < -y && m == (0 - k) * y + r
    ensures m / y == 0 - k
  {
    var d := m / y + k;
    assert d * y == r - m % y;
  }

  // ---------- Comparisons and truth values ----------

  lemma EqualityLaw(seg: SegmentPart, a: Word, b: Word)
    ensures Result(seg, Eq, a, b) == Some(if a == b then 1 else 0)
    ensures Result(seg, Ne, a, b) == Some(if a == b then 0 else 1)
  {
    hide Result;
    ResultIs(seg, Eq, a, b);
    ResultIs(seg, Ne, a, b);
  }

  /** Numbers less than 2^31 apart are compared as signed numbers. */
  lemma OrderLaw(seg: SegmentPart, a: Word, b: Word)
    requires -0x8000_0000 <= Signed(a) - Signed(b) < 0x8000_0000
    ensures Result(seg, Lt, a, b) == Some(if Signed(a) < Signed(b) then 1 else 0)
    ensures Result(seg, Gt, a, b) == Some(if Signed(a) > Signed(b) then 1 else 0)
    ensures Result(seg, Le, a, b) == Some(if Signed(a) <= Signed(b) then 1 else 0)
    ensures Result(seg, Ge, a, b) == Some(if Signed(a) >= Signed(b) then 1 else 0)
  {
    hide Result;
    ResultIs(seg, Lt, a, b);
    ResultIs(seg, Gt, a, b);
    ResultIs(seg, Le, a, b);
    ResultIs(seg, Ge, a, b);
  }

  lemma TruthLaw(seg: SegmentPart, a: Word, b: Word)
    ensures Result(seg, OrOr, a, b) == Some(if a != 0 || b != 0 then 1 else 0)
    ensures Result(seg, XorXor, a, b) == Some(if (a != 0) != (b != 0) then 1 else 0)
    ensures Result(seg, AndAnd, a, b) == Some(if a != 0 && b != 0 then 1 else 0)
  {
    hide Result;
    ResultIs(seg, OrOr, a, b);
    ResultIs(seg, XorXor, a, b);
    ResultIs(seg, AndAnd, a, b);
  }

  // ---------- Bits ----------

  predicate Bit(x: nat, i: nat) {
    (x / Pow2(i)) % 2 == 1
  }

  lemma HalfPower(x: nat, i: nat)
    ensures x / Pow2(i + 1) == (x / 2) / Pow2(i)
  {
    var p := Pow2(i);
    var q, r := (x / 2) / p, (x / 2) % p;
    assert x / 2 == q * p + r;
    assert q * (2 * p) == 2 * (q * p);
    DivideBy(x, 2 * p, q, 2 * r + x % 2);
  }

  lemma BitOfHalf(x: nat, i: nat)
    ensures Bit(x, i + 1) == Bit(x / 2, i) && Bit(x, 0) == (x % 2 == 1)
  {
    HalfPower(x, i);
  }

  lemma BitwiseHalf(n: nat, f: (bool, bool) -> bool, a: nat, b: nat)
    requires n > 0
    ensures var r := Bitwise(n, f, a, b);
      (r % 2 == 1) == f(a % 2 == 1, b % 2 == 1) && r / 2 == Bitwise(n - 1, f, a / 2, b / 2)
  {
  }

  lemma {:induction false} BitwiseBit(n: nat, f: (bool, bool) -> bool, a: nat, b: nat, i: nat)
    requires i < n
    ensures Bit(Bitwise(n, f, a, b), i) == f(Bit(a, i), Bit(b, i))
  {
    hide Pow2, Bit, Bitwise;
    var j := if i > 0 then i - 1 else 0;
    BitOfHalf(Bitwise(n, f, a, b), j);
    BitOfHalf(a, j);
    BitOfHalf(b, j);
    BitwiseHalf(n, f, a, b);
    if i > 0 {
      BitwiseBit(n - 1, f, a / 2, b / 2, j);
    }
  }

  lemma DoubledProduct(a: nat, n: nat)
    ensures a * Pow2(n + 1) == 2 * (a * Pow2(n)) && a * Pow2(n) >= 0 && a * Pow2(0) == a
  {
    NotNegative(a, Pow2(n));
    assert a * (2 * Pow2(n)) == 2 * (a * Pow2(n));
  }

  lemma {:induction false} BitOfProduct(a: nat, n: nat, i: nat)
    ensures a * Pow2(n) >= 0
    ensures Bit(a * Pow2(n), i) == (i >= n && Bit(a, i - n))
    decreases n
  {
    hide Bit, Pow2;
    DoubledProduct(a, n);
    if n > 0 {
      var j := if i > 0 then i - 1 else 0;
      DoubledProduct(a, n - 1);
      BitOfProduct(a, n - 1, j);
      BitOfHalf(2 * (a * Pow2(n - 1)), j);
    }
  }

  lemma HalfOfRemainder(x: nat, k: nat)
    ensures x % Pow2(k + 1) == 2 * ((x / 2) % Pow2(k)) + x % 2
  {
    var p := Pow2(k);
    var q, y := (x / 2) / p, (x / 2) % p;
    assert x / 2 == q * p + y;
    assert q * (2 * p) == 2 * (q * p);
    DivideBy(x, 2 * p, q, 2 * y + x % 2);
  }

  lemma {:induction false} BitOfRemainder(x: nat, k: nat, i: nat)
    requires i < k
    ensures Bit(x % Pow2(k), i) == Bit(x, i)
  {
    hide Pow2, Bit;
    HalfOfRemainder(x, k - 1);
    var j := if i > 0 then i - 1 else 0;
    BitOfHalf(x, j);
    BitOfHalf(x % Pow2(k), j);
    if i > 0 {
      BitOfRemainder(x / 2, k - 1, j);
    }
  }

  lemma {:induction false} BitOfQuotient(a: nat, n: nat, i: nat)
    ensures a / Pow2(n) >= 0
    ensures Bit(a / Pow2(n), i) == Bit(a, i + n)
    decreases n
  {
    if n > 0 {
      HalfPower(a, n - 1);
      BitOfQuotient(a / 2, n - 1, i);
      BitOfHalf(a, i + n - 1);
    }
  }

  lemma NoBitAbove(a: Word, i: nat)
    requires i >= 64
    ensures !Bit(a, i)
  {
    WordPowers();
    Pow2Grows(64, i);
    DivideBy(a, Pow2(i), 0, a);
  }

  /** Bit by bit: the three operators, and the shifts, which bring in zeros. */
  lemma BitLaw(seg: SegmentPart, a: Word, b: Word, i: nat)
    requires i < 64
    ensures var r := Result(seg, Or, a, b); r.Some? && Bit(r.value, i) == (Bit(a, i) || Bit(b, i))
    ensures var r := Result(seg, Xor, a, b); r.Some? && Bit(r.value, i) == (Bit(a, i) != Bit(b, i))
    ensures var r := Result(seg, And, a, b); r.Some? && Bit(r.value, i) == (Bit(a, i) && Bit(b, i))
  {
    hide Result;
    ResultIs(seg, Or, a, b);
    ResultIs(seg, Xor, a, b);
    ResultIs(seg, And, a, b);
    BitwiseBit(64, (x, y) => x || y, a, b, i);
    BitwiseBit(64, (x, y) => x != y, a, b, i);
    BitwiseBit(64, (x, y) => x && y, a, b, i);
  }

  lemma ShiftLaw(seg: SegmentPart, a: Word, n: Word, i: nat)
    requires n < 64 && i < 64
    ensures var r := Result(seg, Shl, a, n); r.Some? && Bit(r.value, i) == (i >= n && Bit(a, i - n))
    ensures var r := Result(seg, Shr, a, n); r.Some? && Bit(r.value, i) == (i + n < 64 && Bit(a, i + n))
  {
    hide Result;
    ResultIs(seg, Shl, a, n);
    ResultIs(seg, Shr, a, n);
    WordPowers();
    BitOfProduct(a, n, i);
    BitOfRemainder(a * Pow2(n), 64, i);
    BitOfQuotient(a, n, i);
    if i + n >= 64 {
      NoBitAbove(a, i + n);
    }
  }

  /** A number is its 64 bits, so that the laws above fix the results. */
  lemma {:induction false} BitsFix(k: nat, x: nat, y: nat)
    requires x < Pow2(k) && y < Pow2(k) && forall i: nat :: i < k ==> Bit(x, i) == Bit(y, i)
    ensures x == y
  {
    if k > 0 {
      BitOfHalf(x, 0);
      BitOfHalf(y, 0);
      assert Bit(x, 0) == Bit(y, 0);
      forall i: nat | i < k - 1
        ensures Bit(x / 2, i) == Bit(y / 2, i)
      {
        BitOfHalf(x, i);
        BitOfHalf(y, i);
        assert Bit(x, i + 1) == Bit(y, i + 1);
      }
      BitsFix(k - 1, x / 2, y / 2);
    }
  }

  // ---------- Unary operators ----------

  lemma SignedOperand(seg: SegmentPart, sign: Token, e: Vector)
    requires UnaryOf(sign).Some?
    ensures Evaluated(seg, [sign, Atom(Some(e))]) == Apply(seg, UnaryOf(sign).value, e)
  {
    var t := Unary(UnaryOf(sign).value, Leaf(e));
    SignAgain(sign);
    ParseTree(Computed(MachineOp, seg), 0, 0, t, []);
    assert Tokens(t) + [] == [sign, Atom(Some(e))];
  }

  /** The number behind a sign. */
  function SignedNumber(seg: SegmentPart, sign: Token, a: Word): Option<Word> {
    NumberOf(seg, [sign, Atom(Some(Scalar(a)))])
  }

  lemma SignedNumberIs(seg: SegmentPart, sign: Token, a: Word)
    requires UnaryOf(sign).Some? && UnaryOf(sign) != Some(Segment)
    ensures SignedNumber(seg, sign, a) == Some(NumberUnary(UnaryOf(sign).value, a))
  {
    SignedOperand(seg, sign, Scalar(a));
    NumberVector(Scalar(a));
    UnaryCarries(MachineOp, seg, UnaryOf(sign).value, Scalar(a));
    NumberVector(Apply(seg, UnaryOf(sign).value, Scalar(a)).value);
  }

  lemma UnaryLaw(seg: SegmentPart, a: Word)
    ensures var r := SignedNumber(seg, Binary(Sub), a); r.Some? && Congruent(r.value + a, 0)
    ensures SignedNumber(seg, Binary(Add), a) == Some(a)
    ensures SignedNumber(seg, Bang, a) == Some(if a == 0 then 1 else 0)
  {
    hide SignedNumber;
    SignedNumberIs(seg, Binary(Sub), a);
    SignedNumberIs(seg, Binary(Add), a);
    SignedNumberIs(seg, Bang, a);
  }

  lemma ComplementLaw(seg: SegmentPart, a: Word, i: nat)
    requires i < 64
    ensures var r := SignedNumber(seg, Tilde, a); r.Some? && Bit(r.value, i) != Bit(a, i)
  {
    hide SignedNumber;
    SignedNumberIs(seg, Tilde, a);
    WordPowers();
    ComplementBit(64, a, i);
  }

  /** SEG asks the output format. */
  lemma SegmentLaw(seg: SegmentPart, e: Vector)
    ensures Evaluated(seg, [SegWord, Atom(Some(e))]) == seg(e)
  {
    hide Evaluated;
    SignedOperand(seg, SegWord, e);
  }

  lemma ComplementHalf(k: nat, a: nat)
    requires k > 0 && a < Pow2(k)
    ensures a / 2 < Pow2(k - 1)
    ensures var c := Pow2(k) - 1 - a; c / 2 == Pow2(k - 1) - 1 - a / 2 && c % 2 != a % 2
  {
  }

  lemma {:induction false} ComplementBit(k: nat, a: nat, i: nat)
    requires i < k && a < Pow2(k)
    ensures Bit(Pow2(k) - 1 - a, i) != Bit(a, i)
  {
    hide Pow2, Bit;
    var j := if i > 0 then i - 1 else 0;
    ComplementHalf(k, a);
    BitOfHalf(a, j);
    BitOfHalf(Pow2(k) - 1 - a, j);
    if i > 0 {
      ComplementBit(k - 1, a / 2, j);
    }
  }

  // ---------- Operands that are not numbers ----------

  ghost predicate ScalarOnly(v: Vector) {
    forall kind: nat :: kind != 0x1_0001 ==> Coefficient(v, kind) == 0
  }

  /** A sum of components of which one that is not the scalar is there. */
  ghost predicate Composite(v: Vector) {
    Plain(v) && exists kind: nat :: kind != 0x1_0001 && Coefficient(v, kind) != 0
  }

  /** A plain vector with no component but the scalar. */
  ghost predicate Pure(v: Vector) {
    Plain(v) && ScalarOnly(v)
  }

  lemma {:induction false} AllZero(v: Vector, low: nat, kind: nat)
    requires PlainAbove(v, low) && SkipZeros(v) == []
    ensures Coefficient(v, kind) == 0
  {
    ZeroVector(v, low);
  }

  /** The tests that the source makes agree with the coefficients. */
  lemma {:induction false} SimpleIsPure(v: Vector, low: nat)
    requires PlainAbove(v, low)
    ensures IsSimple(v) <==> ScalarOnly(v)
    ensures !IsJustUnknown(v)
    ensures IsSimple(v) ==> ScalarPart(v) == Coefficient(v, 0x1_0001)
  {
    if v != [] {
      var w := v[1..];
      NoCoefficient(w, v[0].kind, v[0].kind);
      assert forall kind :: kind != v[0].kind ==> Coefficient(v, kind) == Coefficient(w, kind);
      if v[0].value == 0 {
        SimpleIsPure(w, v[0].kind);
        assert forall kind :: Coefficient(v, kind) == Coefficient(w, kind);
        assert IsSimple(v) == IsSimple(w);
        assert ScalarOnly(v) == ScalarOnly(w);
      } else {
        assert Coefficient(v, v[0].kind) != 0;
        ZeroVector(w, v[0].kind);
        SkippedIsPlain(w, v[0].kind);
      }
    }
  }

  lemma {:induction false} SkippedIsPlain(v: Vector, low: nat)
    requires PlainAbove(v, low)
    ensures SkipZeros(v) != [] ==> low < SkipZeros(v)[0].kind < FAR && SkipZeros(v)[0].kind != UNKNOWN
  {
    if v != [] {
      SkippedIsPlain(v[1..], v[0].kind);
    }
  }

  /** What the source's tests say of plain vectors. */
  lemma PlainTests(v: Vector)
    requires Plain(v)
    ensures !IsUnknown(v) && !IsJustUnknown(v) && Composite(v) == !Pure(v)
    ensures IsSimple(v) == Pure(v)
    ensures Pure(v) ==> ScalarPart(v) == Coefficient(v, 0x1_0001)
  {
    SimpleIsPure(v, 0);
    PlainIsKnown(v, 0);
  }

  /** Division is an error, and a shift leaves its left operand as it is, when an operand is not a number. */
  lemma CompositeLaw(seg: SegmentPart, op: BinaryOp, e: Vector, f: Vector)
    requires Plain(e) && Plain(f) && (Composite(e) || Composite(f)) && op in {Div, Mod, SDiv, SMod, Shl, Shr}
    ensures Evaluated(seg, Pair(e, op, f)) == if op in {Shl, Shr} then Some(e) else None
  {
    hide Evaluated, Composite, Pure, IsSimple, IsJustUnknown, Compare, AddVectors, ScalarMult, ScalarPart, IsUnknown;
    PlainTests(e);
    PlainTests(f);
    PairEvaluates(seg, e, op, f);
  }

  /** A product is an error if and only if neither operand is a number; otherwise every component is multiplied. */
  lemma ProductLaw(seg: SegmentPart, e: Vector, f: Vector, kind: nat)
    requires Plain(e) && Plain(f)
    ensures var r := Evaluated(seg, Pair(e, Mul, f));
      && (r == None <==> Composite(e) && Composite(f))
      && (Pure(e) ==> Congruent(Coefficient(r.value, kind), Coefficient(e, 0x1_0001) * Coefficient(f, kind)))
      && (Pure(f) ==> Congruent(Coefficient(r.value, kind), Coefficient(e, kind) * Coefficient(f, 0x1_0001)))
  {
    hide Evaluated, Composite, IsSimple, IsJustUnknown, Compare, AddVectors, ScalarPart, Congruent, Times;
    PlainTests(e);
    PlainTests(f);
    PairEvaluates(seg, e, Mul, f);
    ProductScaled(e, f, kind);
    ProductScaled(f, e, kind);
    if Pure(e) && Pure(f) {
      PureBoth(e, f, kind);
    }
  }

  lemma ProductScaled(e: Vector, f: Vector, kind: nat)
    requires Plain(e) && Plain(f)
    ensures var r := ScalarMult(f, Coefficient(e, 0x1_0001));
      && Congruent(Coefficient(r, kind), Coefficient(e, 0x1_0001) * Coefficient(f, kind))
      && Congruent(Coefficient(r, kind), Coefficient(f, kind) * Coefficient(e, 0x1_0001))
  {
    var a, b := Coefficient(e, 0x1_0001), Coefficient(f, kind);
    ScalarMultIsScaling(f, 0, a, kind);
    Commute(a, b);
  }

  /** Two numbers have the same product either way round. */
  lemma PureBoth(e: Vector, f: Vector, kind: nat)
    requires Pure(e) && Pure(f)
    ensures Coefficient(e, kind) * Coefficient(f, 0x1_0001) == Coefficient(e, 0x1_0001) * Coefficient(f, kind)
  {
    if kind != 0x1_0001 {
      assert Coefficient(e, kind) == 0 && Coefficient(f, kind) == 0;
    }
  }

  /** Sums and differences of vectors are taken component by component. */
  lemma VectorSumLaw(seg: SegmentPart, e: Vector, f: Vector, kind: nat)
    requires Plain(e) && Plain(f)
    ensures var r := Evaluated(seg, Pair(e, Add, f));
      r.Some? && Congruent(Coefficient(r.value, kind), Coefficient(e, kind) + Coefficient(f, kind))
    ensures var r := Evaluated(seg, Pair(e, Sub, f));
      r.Some? && Congruent(Coefficient(r.value, kind), Coefficient(e, kind) - Coefficient(f, kind))
  {
    hide Evaluated, Compare, AddVectors, ScalarMult, PlainAbove, Coefficient, Times, Congruent;
    PairEvaluates(seg, e, Add, f);
    PairEvaluates(seg, e, Sub, f);
    var g := ScalarMult(f, MINUS_ONE);
    var a: int, b: int := Coefficient(e, kind), Coefficient(f, kind);
    ScalarMultIsScaling(f, 0, MINUS_ONE, kind);
    AddVectorsIsAddition(e, f);
    AddVectorsIsAddition(e, g);
    DifferenceOf(a, b, Coefficient(g, kind), Coefficient(AddVectors(e, g), kind));
    Reduced(a + b);
    MinusIsCongruent(a, b);
  }

  // ---------- Far-absolute parts ----------

  /** A vector of a plain part and a far-absolute part, perhaps with more behind it. */
  predicate FarVector(v: Vector, plain: Vector, far: seq<Term>) {
    v == plain + far && Plain(plain) && far != [] && far[0].kind >= 0x4001_0003
  }

  /** A component other than the scalar is there. */
  ghost predicate HasOther(v: Vector) {
    exists i :: 0 <= i < |v| && v[i].kind != 0x1_0001 && v[i].value != 0
  }

  lemma {:induction false} SkippedHas(v: Vector, i: nat)
    requires i < |v| && v[i].value != 0
    ensures SkipZeros(v) != [] && exists j :: 0 <= j < |SkipZeros(v)| && SkipZeros(v)[j] == v[i]
  {
    if v[0].value == 0 {
      SkippedHas(v[1..], i - 1);
    }
  }

  lemma HasOtherIsNotSimple(v: Vector)
    requires HasOther(v)
    ensures !IsReallySimple(v)
  {
    var i :| 0 <= i < |v| && v[i].kind != 0x1_0001 && v[i].value != 0;
    SkippedHas(v, i);
    var w := SkipZeros(v);
    var j :| 0 <= j < |w| && w[j] == v[i];
    if j > 0 {
      SkippedHas(w[1..], j - 1);
    }
  }

  lemma {:induction false} PureIsReallySimple(v: Vector, low: nat)
    requires PlainAbove(v, low) && ScalarOnly(v)
    ensures IsReallySimple(v)
  {
    if v != [] {
      var w := v[1..];
      NoCoefficient(w, v[0].kind, v[0].kind);
      assert forall kind :: kind != v[0].kind ==> Coefficient(v, kind) == Coefficient(w, kind);
      if v[0].value == 0 {
        assert forall kind :: Coefficient(v, kind) == Coefficient(w, kind);
        PureIsReallySimple(w, v[0].kind);
        assert IsReallySimple(v) == IsReallySimple(w);
      } else {
        assert Coefficient(v, v[0].kind) != 0;
        ZeroVector(w, v[0].kind);
      }
    }
  }

  lemma {:induction false} KeptOfFar(u: Vector, low: nat, far: seq<Term>, preserve: bool)
    requires PlainAbove(u, low) && (far == [] || far[0].kind >= FAR)
    ensures Kept(u + far, preserve) == u + if preserve then far else []
  {
    if u == [] {
      assert [] + far == far;
      if preserve {
        KeptWhole(far);
      }
    } else {
      assert (u + far)[1..] == u[1..] + far && u == [u[0]] + u[1..];
      KeptOfFar(u[1..], u[0].kind, far, preserve);
    }
  }

  lemma {:induction false} KeptWhole(v: Vector)
    ensures Kept(v, true) == v
  {
    if v != [] {
      KeptWhole(v[1..]);
      assert v == [v[0]] + v[1..];
    }
  }

  predicate StartsFar(far: seq<Term>) {
    far == [] || far[0].kind >= 0x4001_0003
  }

  lemma PlainHeads(p: Vector, q: Vector, low: nat)
    requires PlainAbove(p, low) && PlainAbove(q, low) && p != [] && q != []
    ensures p[0].kind < FAR && q[0].kind < FAR && p[0].kind != UNKNOWN && q[0].kind != UNKNOWN
    ensures var first := if p[0].kind > q[0].kind then q[0].kind else p[0].kind;
      && PlainAbove(if p[0].kind > q[0].kind then p else p[1..], first)
      && PlainAbove(if p[0].kind < q[0].kind then q else q[1..], first)
  {
  }

  /** One step of the merge, with and without far-absolute parts. */
  lemma StepWithFar(p: Vector, q: Vector, low: nat, a: seq<Term>, b: seq<Term>, preserve: bool)
    returns (head: Vector, p': Vector, q': Vector, first: nat)
    requires PlainAbove(p, low) && PlainAbove(q, low) && p != [] && q != []
    ensures Merge(p, q, preserve) == head + Merge(p', q', preserve)
    ensures Merge(p + a, q + b, preserve) == head + Merge(p' + a, q' + b, preserve)
    ensures PlainAbove(p', first) && PlainAbove(q', first) && |p'| + |q'| < |p| + |q|
  {
    hide Merge, Plus, PlainAbove;
    PlainHeads(p, q, low);
    p', q', first := MergeFirst(p, q, preserve);
    var value := Plus(if p[0].kind > first then 0 else p[0].value, if q[0].kind > first then 0 else q[0].value);
    head := if p[0].kind != q[0].kind || value != 0 then [Term(first, value)] else [];
    assert (p + a)[1..] == p[1..] + a && (q + b)[1..] == q[1..] + b;
    var v', w', one := MergeFirst(p + a, q + b, preserve);
  }

  lemma FarEnds(p: Vector, q: Vector, low: nat, a: seq<Term>, b: seq<Term>, preserve: bool)
    requires PlainAbove(p, low) && PlainAbove(q, low) && StartsFar(a) && StartsFar(b) && (p == [] || q == [])
    ensures Merge(p, q, preserve) == p + q
    ensures Merge(p + a, q + b, preserve) == if preserve then (p + a) + (q + b) else p + q
  {
    assert p == [] ==> p + a == a;
    assert q == [] ==> q + b == b;
    KeptAll(p, low, preserve);
    KeptAll(q, low, preserve);
    KeptOfFar(p, low, a, preserve);
    KeptOfFar(q, low, b, preserve);
    assert p + [] == p && q + [] == q;
  }

  lemma {:induction false} FarBehind(p: Vector, q: Vector, low: nat, far: seq<Term>)
    requires PlainAbove(p, low) && PlainAbove(q, low) && StartsFar(far)
    ensures Merge(p, q + far, true) == Merge(p, q, true) + far
    decreases |p| + |q|
  {
    hide Merge, PlainAbove;
    assert forall v: Vector :: v + [] == v;
    if p == [] || q == [] {
      FarEnds(p, q, low, [], far, true);
    } else {
      var head, p', q', first := StepWithFar(p, q, low, [], far, true);
      FarBehind(p', q', first, far);
    }
  }

  lemma {:induction false} FarAmong(p: Vector, q: Vector, low: nat, far: seq<Term>)
    requires PlainAbove(p, low) && PlainAbove(q, low) && StartsFar(far)
    ensures multiset(Merge(p + far, q, true)) == multiset(Merge(p, q, true)) + multiset(far)
    decreases |p| + |q|
  {
    hide Merge, PlainAbove;
    assert forall v: Vector :: v + [] == v;
    if p == [] || q == [] {
      FarEnds(p, q, low, far, [], true);
    } else {
      var head, p', q', first := StepWithFar(p, q, low, far, [], true);
      FarAmong(p', q', first, far);
    }
  }

  lemma {:induction false} FarLost(p: Vector, q: Vector, low: nat, a: seq<Term>, b: seq<Term>)
    requires PlainAbove(p, low) && PlainAbove(q, low) && StartsFar(a) && StartsFar(b)
    ensures Merge(p + a, q + b, false) == Merge(p, q, false)
    decreases |p| + |q|
  {
    hide Merge, PlainAbove;
    if p == [] || q == [] {
      FarEnds(p, q, low, a, b, false);
    } else {
      var head, p', q', first := StepWithFar(p, q, low, a, b, false);
      FarLost(p', q', first, a, b);
    }
  }

  /** A number plus a vector with a far-absolute part keeps that part, behind the sum of the rest; the other way round
      it is kept too, among the other terms. */
  lemma FarIsKept(seg: SegmentPart, e: Vector, v: Vector, plain: Vector, far: seq<Term>)
    requires Pure(e) && FarVector(v, plain, far)
    ensures Evaluated(seg, Pair(e, Add, v)) == Some(AddVectors(e, plain) + far)
    ensures var r := Evaluated(seg, Pair(v, Add, e));
      r.Some? && multiset(r.value) == multiset(AddVectors(plain, e)) + multiset(far)
  {
    hide Evaluated;
    PureIsReallySimple(e, 0);
    PairEvaluates(seg, e, Add, v);
    PairEvaluates(seg, v, Add, e);
    FarBehind(e, plain, 0, far);
    FarAmong(plain, e, 0, far);
  }

  /** Two operands that both have more than a number lose their far-absolute parts. */
  lemma FarIsLost(seg: SegmentPart, v: Vector, w: Vector, p: Vector, q: Vector, a: seq<Term>, b: seq<Term>)
    requires FarVector(v, p, a) && FarVector(w, q, b) && HasOther(v) && HasOther(w)
    ensures Evaluated(seg, Pair(v, Add, w)) == Some(Merge(p, q, false))
    ensures Plain(Merge(p, q, false))
    ensures forall kind :: Coefficient(Merge(p, q, false), kind) == Plus(Coefficient(p, kind), Coefficient(q, kind))
  {
    hide Evaluated;
    HasOtherIsNotSimple(v);
    HasOtherIsNotSimple(w);
    PairEvaluates(seg, v, Add, w);
    FarLost(p, q, 0, a, b);
    MergeSorted(p, q, 0, false);
    forall kind: nat
      ensures Coefficient(Merge(p, q, false), kind) == Plus(Coefficient(p, kind), Coefficient(q, kind))
    {
      MergeCoefficient(p, q, 0, false, kind);
    }
  }

  /** The order matters: behind a far-absolute part alone a number is not sorted in, and the sum is not a simple
      value, while the number before it gives one. */
  lemma FarFirst(seg: SegmentPart, kind: nat, x: Word, n: Word)
    requires kind >= 0x4001_0003 && x != 0 && n != 0
    ensures Evaluated(seg, Pair([Term(kind, x)], Add, Scalar(n))) == Some([Term(kind, x), Term(SIMPLE, n)])
    ensures Evaluated(seg, Pair(Scalar(n), Add, [Term(kind, x)])) == Some([Term(SIMPLE, n), Term(kind, x)])
    ensures !IsSimple([Term(kind, x), Term(SIMPLE, n)]) && IsSimple([Term(SIMPLE, n), Term(kind, x)])
  {
    hide Evaluated;
    var far: Vector := [Term(kind, x)];
    PairEvaluates(seg, far, Add, Scalar(n));
    PairEvaluates(seg, Scalar(n), Add, far);
    NumberVector(Scalar(n));
    KeptWhole(far);
    KeptWhole(Scalar(n));
    assert [Term(SIMPLE, n), Term(kind, x)][1..] == far;
    assert far + Scalar(n) == [Term(kind, x), Term(SIMPLE, n)];
    assert Scalar(n) + far == [Term(SIMPLE, n), Term(kind, x)];
  }

  // ---------- Operands that are not known ----------

  /** The first term that is not zero is the unknown one. */
  ghost predicate Unknown(u: Vector) {
    exists i :: 0 <= i < |u| && UnknownAt(u, i)
  }

  predicate UnknownAt(u: Vector, i: nat)
    requires i < |u|
  {
    u[i].kind == 0x1_0000 && u[i].value != 0 && forall j :: 0 <= j < i ==> u[j].value == 0 && u[j].kind < 0x1_0000
  }

  lemma {:induction false} SkippedTo(u: Vector, i: nat)
    requires i < |u| && u[i].value != 0 && forall j :: 0 <= j < i ==> u[j].value == 0
    ensures SkipZeros(u) == u[i..]
  {
    if i > 0 {
      SkippedTo(u[1..], i - 1);
      assert u[1..][i - 1..] == u[i..];
    }
  }

  lemma {:induction false} FoundUnknown(u: Vector, i: nat)
    requires i < |u| && u[i].kind == 0x1_0000 && forall j :: 0 <= j < i ==> u[j].kind < 0x1_0000
    ensures IsUnknown(u)
  {
    if i > 0 {
      FoundUnknown(u[1..], i - 1);
    }
  }

  lemma UnknownTests(u: Vector)
    requires Unknown(u)
    ensures IsUnknown(u) && IsJustUnknown(u) && !IsSimple(u) && IsScalar(u) && ScalarPart(u) == 0
  {
    var i :| 0 <= i < |u| && UnknownAt(u, i);
    SkippedTo(u, i);
    FoundUnknown(u, i);
    assert u[i..][0] == u[i];
  }

  /** An operator without an error has an unknown result when an operand is not known; dividing by zero is one. */
  lemma UnknownLaw(seg: SegmentPart, op: BinaryOp, u: Vector, f: Vector)
    requires op in {OrOr, XorXor, AndAnd, Or, Xor, And, Shl, Shr, Div, Mod, SDiv, SMod}
    requires Unknown(u) && Pure(f)
    ensures var zero := Coefficient(f, 0x1_0001) == 0 && op in {Div, Mod, SDiv, SMod};
      Evaluated(seg, Pair(u, op, f)) == if zero then None else Some([Term(0x1_0000, 1)])
    ensures Evaluated(seg, Pair(f, op, u)) == Some([Term(0x1_0000, 1)])
  {
    hide Evaluated, Compare, AddVectors, ScalarMult, MachineOp, Coefficient, IsSimple, IsJustUnknown, IsUnknown,
      PlainAbove, ScalarOnly, ScalarPart, Unknown;
    PairEvaluates(seg, u, op, f);
    PairEvaluates(seg, f, op, u);
    PlainTests(f);
    UnknownTests(u);
  }

  /** A product of two is unknown, one with a composite operand is an error. */
  lemma UnknownProduct(seg: SegmentPart, u: Vector, v: Vector, e: Vector)
    requires Unknown(u) && Unknown(v) && Plain(e)
    ensures Evaluated(seg, Pair(u, Mul, v)) == Some([Term(0x1_0000, 1)])
    ensures Composite(e) ==> Evaluated(seg, Pair(u, Mul, e)) == None && Evaluated(seg, Pair(e, Mul, u)) == None
    ensures Pure(e) ==> Evaluated(seg, Pair(u, Mul, e)) == Some(ScalarMult(u, Coefficient(e, 0x1_0001)))
    ensures Pure(e) ==> Evaluated(seg, Pair(e, Mul, u)) == Some(ScalarMult(u, Coefficient(e, 0x1_0001)))
  {
    hide Evaluated, Compare, AddVectors, ScalarMult, Coefficient, IsSimple, IsJustUnknown, PlainAbove, ScalarOnly,
      ScalarPart, Unknown, Composite;
    UnknownTests(u);
    UnknownTests(v);
    PlainTests(e);
    PairEvaluates(seg, u, Mul, v);
    PairEvaluates(seg, u, Mul, e);
    PairEvaluates(seg, e, Mul, u);
  }

  lemma {:induction false} MergeWithUnknown(p: Vector, low: nat, x: Word, preserve: bool)
    requires PlainAbove(p, low)
    ensures IsUnknown(Merge(p, [Term(UNKNOWN, x)], preserve)) && IsUnknown(Merge([Term(UNKNOWN, x)], p, preserve))
  {
    var u := [Term(UNKNOWN, x)];
    assert u[1..] == [];
    if p == [] {
      assert Kept(u, preserve) == u + Kept([], preserve) == u;
    } else if p[0].kind < UNKNOWN {
      MergeWithUnknown(p[1..], p[0].kind, x, preserve);
      var r, s := Merge(p[1..], u, preserve), Merge(u, p[1..], preserve);
      assert ([p[0]] + r)[1..] == r && ([p[0]] + s)[1..] == s;
    }
  }

  /** A comparison with an unknown operand has an unknown result. */
  lemma UnknownComparison(seg: SegmentPart, op: BinaryOp, e: Vector)
    requires op in {Eq, Ne, Lt, Gt, Le, Ge} && Plain(e)
    ensures Evaluated(seg, Pair(e, op, UnknownVector())) == Some([Term(0x1_0000, 1)])
    ensures Evaluated(seg, Pair(UnknownVector(), op, e)) == Some([Term(0x1_0000, 1)])
  {
    hide Evaluated, PlainAbove, Merge, IsReallySimple, IsUnknown;
    var u := UnknownVector();
    PairEvaluates(seg, e, op, u);
    PairEvaluates(seg, u, op, e);
    var minus, g := Times(MINUS_ONE, 1), ScalarMult(e, MINUS_ONE);
    assert ScalarMult(u, MINUS_ONE) == [Term(UNKNOWN, minus)] by {
      assert u[1..] == [];
    }
    ScalarMultIsScaling(e, 0, MINUS_ONE, 0);
    MergeWithUnknown(e, 0, minus, IsReallySimple(e) || IsReallySimple([Term(UNKNOWN, minus)]));
    MergeWithUnknown(g, 0, 1, IsReallySimple(u) || IsReallySimple(g));
  }

  /** The two have every component but the scalar in common. */
  ghost predicate SameOthers(e: Vector, f: Vector) {
    forall kind: nat :: kind != 0x1_0001 ==> Coefficient(e, kind) == Coefficient(f, kind)
  }

  /** Ordered comparisons: never true when a component other than the scalar differs, and otherwise those of the
      scalar parts. */
  lemma OrderOfVectors(seg: SegmentPart, op: BinaryOp, e: Vector, f: Vector)
    requires op in {Lt, Gt, Le, Ge} && Plain(e) && Plain(f)
    ensures !SameOthers(e, f) ==> NumberOf(seg, Pair(e, op, f)) == Some(0)
    ensures SameOthers(e, f) ==>
      NumberOf(seg, Pair(e, op, f)) == Result(seg, op, Coefficient(e, 0x1_0001), Coefficient(f, 0x1_0001))
  {
    hide Evaluated, PlainAbove, ScalarMult, IsReallySimple, IsUnknown, ScalarPart, Coefficient, AddVectors, Ordered,
      SameOthers;
    var a, b := Coefficient(e, 0x1_0001), Coefficient(f, 0x1_0001);
    var d := AddVectors(e, ScalarMult(f, MINUS_ONE));
    PairEvaluates(seg, e, op, f);
    PairEvaluates(seg, Scalar(a), op, Scalar(b));
    DifferenceTests(e, f, d);
    ScalarComparison(op, a, b);
  }

  lemma ScalarComparison(op: BinaryOp, a: Word, b: Word)
    requires op in {Lt, Gt, Le, Ge}
    ensures Compare(op, Scalar(a), Scalar(b)) == Scalar(ToWord(Ordered(op, Minus(a, b))))
  {
    hide Ordered, AddVectors, ScalarMult;
    var v, w, g := Scalar(a), Scalar(b), ScalarMult(Scalar(b), MINUS_ONE);
    NumberVector(v);
    NumberVector(w);
    NumberDifference(v, w, g);
    ComparedNumber(op, AddVectors(v, g), Minus(a, b));
  }

  lemma DifferenceTests(e: Vector, f: Vector, d: Vector)
    requires Plain(e) && Plain(f) && d == AddVectors(e, ScalarMult(f, MINUS_ONE))
    ensures !IsUnknown(d)
    ensures IsReallySimple(d) <==> SameOthers(e, f)
    ensures IsReallySimple(d) ==> ScalarPart(d) == Minus(Coefficient(e, 0x1_0001), Coefficient(f, 0x1_0001))
  {
    hide PlainAbove, ScalarMult, IsReallySimple, IsUnknown, IsSimple, ScalarPart, AddVectors, Coefficient;
    var g := ScalarMult(f, MINUS_ONE);
    ScalarMultIsScaling(f, 0, MINUS_ONE, 0);
    AddVectorsIsAddition(e, g);
    forall kind: nat
      ensures Coefficient(d, kind) == Minus(Coefficient(e, kind), Coefficient(f, kind))
    {
      ScalarMultIsScaling(f, 0, MINUS_ONE, kind);
      DifferenceOf(Coefficient(e, kind), Coefficient(f, kind), Coefficient(g, kind), Coefficient(d, kind));
    }
    PlainTests(d);
    assert ScalarOnly(d) <==> SameOthers(e, f) by {
      OnlyScalarDiffers(e, f, d);
    }
    if ScalarOnly(d) {
      PureIsReallySimple(d, 0);
    } else {
      CompositeIsNotSimple(d, 0);
    }
  }

  lemma OnlyScalarDiffers(e: Vector, f: Vector, d: Vector)
    requires forall kind :: Coefficient(d, kind) == Minus(Coefficient(e, kind), Coefficient(f, kind))
    ensures ScalarOnly(d) <==> SameOthers(e, f)
  {
    hide Coefficient;
    if SameOthers(e, f) {
      forall kind: nat | kind != 0x1_0001
        ensures Coefficient(d, kind) == 0
      {
        assert Coefficient(e, kind) == Coefficient(f, kind);
      }
    }
    if ScalarOnly(d) {
      forall kind: nat | kind != 0x1_0001
        ensures Coefficient(e, kind) == Coefficient(f, kind)
      {
        assert Coefficient(d, kind) == 0;
      }
    }
  }

  lemma {:induction false} TermOf(v: Vector, kind: nat)
    requires Coefficient(v, kind) != 0
    ensures exists i :: 0 <= i < |v| && v[i].kind == kind && v[i].value != 0
  {
    if v[0].kind != kind {
      TermOf(v[1..], kind);
      var i :| 0 <= i < |v[1..]| && v[1..][i].kind == kind && v[1..][i].value != 0;
      assert v[i + 1] == v[1..][i];
    }
  }

  lemma CompositeIsNotSimple(v: Vector, low: nat)
    requires PlainAbove(v, low) && !ScalarOnly(v)
    ensures !IsReallySimple(v)
  {
    var kind: nat :| kind != 0x1_0001 && Coefficient(v, kind) != 0;
    TermOf(v, kind);
    HasOtherIsNotSimple(v);
  }

  /** Complement and negation of what is not a number: unknown of an unknown, an error of a composite value. A minus
      sign negates every component. */
  lemma UnaryOnOthers(seg: SegmentPart, u: Vector, e: Vector, kind: nat)
    requires Unknown(u) && Plain(e)
    ensures Evaluated(seg, [Tilde, Atom(Some(u))]) == Evaluated(seg, [Bang, Atom(Some(u))]) == Some([Term(0x1_0000, 1)])
    ensures Composite(e) ==>
      Evaluated(seg, [Tilde, Atom(Some(e))]) == None && Evaluated(seg, [Bang, Atom(Some(e))]) == None
    ensures Evaluated(seg, [Binary(Add), Atom(Some(e))]) == Some(e)
    ensures var r := Evaluated(seg, [Binary(Sub), Atom(Some(e))]);
      r.Some? && Congruent(Coefficient(r.value, kind) + Coefficient(e, kind), 0)
  {
    hide Evaluated, Composite, Pure, IsSimple, IsJustUnknown, ScalarPart, Unknown, PlainAbove, ScalarMult, Coefficient;
    SignedOperand(seg, Tilde, u);
    SignedOperand(seg, Bang, u);
    SignedOperand(seg, Tilde, e);
    SignedOperand(seg, Bang, e);
    SignedOperand(seg, Binary(Add), e);
    SignedOperand(seg, Binary(Sub), e);
    UnknownTests(u);
    PlainTests(e);
    ScalarMultIsScaling(e, 0, MINUS_ONE, kind);
    TimesMinusOne(Coefficient(e, kind), Coefficient(ScalarMult(e, MINUS_ONE), kind));
  }

  // ---------- Precedence ----------

  /** The binary operators, those that bind loosest first. */
  const GROUPS: seq<set<BinaryOp>> := [
    {OrOr}, {XorXor}, {AndAnd}, {Eq, Ne, Lt, Gt, Le, Ge}, {Or}, {Xor}, {And}, {Shl, Shr}, {Add, Sub},
    {Mul, Div, Mod, SDiv, SMod}]

  function Chain(a: Vector, p: BinaryOp, b: Vector, q: BinaryOp, c: Vector): seq<Token> {
    [Atom(Some(a)), Binary(p), Atom(Some(b)), Binary(q), Atom(Some(c))]
  }

  lemma GroupIsLevel(i: nat, op: BinaryOp)
    requires i < |GROUPS| && op in GROUPS[i]
    ensures Level(op) == i
  {
  }

  lemma EveryOperatorHasAGroup(op: BinaryOp)
    ensures Level(op) < |GROUPS| && op in GROUPS[Level(op)]
  {
  }

  /** Without parentheses the tighter of two operators is applied first, and of two in a group the left one. */
  lemma PrecedenceLaw(alg: Algebra, a: Vector, p: BinaryOp, b: Vector, q: BinaryOp, c: Vector, i: nat, j: nat)
    requires i < |GROUPS| && j < |GROUPS| && p in GROUPS[i] && q in GROUPS[j]
    ensures Parse(alg, 0, 0, Chain(a, p, b, q, c))
         == Outcome(Value(alg, if i < j then Node(p, Leaf(a), Node(q, Leaf(b), Leaf(c)))
                               else Node(q, Node(p, Leaf(a), Leaf(b)), Leaf(c))), [])
  {
    GroupIsLevel(i, p);
    GroupIsLevel(j, q);
    var l, m, r := Leaf(a), Leaf(b), Leaf(c);
    if i < j {
      var t := Node(p, l, Node(q, m, r));
      ParseTree(alg, 0, 0, t, []);
      assert Tokens(t.r) == [Atom(Some(b))] + ([Binary(q)] + [Atom(Some(c))]);
      assert Tokens(t) + [] == Chain(a, p, b, q, c);
    } else {
      var t := Node(q, Node(p, l, m), r);
      ParseTree(alg, 0, 0, t, []);
      assert Tokens(t.l) == [Atom(Some(a))] + ([Binary(p)] + [Atom(Some(b))]);
      assert Tokens(t) + [] == Chain(a, p, b, q, c);
    }
  }
}
