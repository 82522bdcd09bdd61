/**
 The expression evaluator (asm/aasm-eval.cpp, the grammar functions rexp0 to expr6).

 The ten binary levels share one shape - an operand of the next level, then operators of this level
 with operands of the next - so one function with the level as parameter stands for them; what an
 operator computes is `Combine`. The specification is a tree of operations: the evaluator accepts
 exactly the token strings that the grammar assigns to a tree, and computes the tree's value.
 */
module Evaluator {
  import opened Common
  import opened Powers
  import opened Vectors

  datatype BinaryOp =
    | OrOr | XorXor | AndAnd
    | Eq | Ne | Lt | Gt | Le | Ge
    | Or | Xor | And
    | Shl | Shr
    | Add | Sub
    | Mul | Div | Mod | SDiv | SMod

  /** Loosest first; 10 is the level of unary operators and operands. */
  function Level(op: BinaryOp): (n: nat)
    ensures n < 10
  {
    match op
    case OrOr => 0
    case XorXor => 1
    case AndAnd => 2
    case Eq => 3 case Ne => 3 case Lt => 3 case Gt => 3 case Le => 3 case Ge => 3
    case Or => 4
    case Xor => 5
    case And => 6
    case Shl => 7 case Shr => 7
    case Add => 8 case Sub => 8
    case Mul => 9 case Div => 9 case Mod => 9 case SDiv => 9 case SMod => 9
  }

  datatype UnaryOp = Negate | Keep | Invert | Not | Segment

  /**
   A token. An atom is a number, register, symbol, `$` or `$$` with the vector it stands for, or
   None for a symbol whose lookup is an error.
   */
  datatype Token = Atom(vector: Option<Vector>) | Binary(op: BinaryOp) | Tilde | Bang | SegWord | Open | Close | End

  /** Addition and subtraction signs are also unary operators. */
  function UnaryOf(t: Token): Option<UnaryOp> {
    match t
    case Binary(op) => if op == Sub then Some(Negate) else if op == Add then Some(Keep) else None
    case Tilde => Some(Invert)
    case Bang => Some(Not)
    case SegWord => Some(Segment)
    case _ => None
  }

  function SignOf(u: UnaryOp): (t: Token)
    ensures UnaryOf(t) == Some(u)
  {
    match u
    case Negate => Binary(Sub)
    case Keep => Binary(Add)
    case Invert => Tilde
    case Not => Bang
    case Segment => SegWord
  }

  /** The segment part of a relocatable value; it asks the output format, so it is a parameter. */
  type SegmentPart = Vector -> Option<Vector>

  // ---------- What operators compute ----------

  function ToWord(b: bool): Word {
    if b then 1 else 0
  }

  /** Two's complement reading. */
  function Signed(a: Word): (s: int)
    ensures -0x8000_0000_0000_0000 <= s < 0x8000_0000_0000_0000 && (s == a || s == a - 0x1_0000_0000_0000_0000)
  {
    if a < 0x8000_0000_0000_0000 then a else a - TWO64
  }

  /** The value of a Word stored into a 32-bit int. */
  function Low32(a: Word): (l: int)
    ensures -0x8000_0000 <= l < 0x8000_0000 && (a - l) % 0x1_0000_0000 == 0
  {
    var l := a % 0x1_0000_0000;
    if l < 0x8000_0000 then l else l - 0x1_0000_0000
  }

  function Wrapped(x: int): Word {
    x % TWO64
  }

  /** A bit operator on the low `n` bits. */
  function Bitwise(n: nat, f: (bool, bool) -> bool, a: nat, b: nat): (r: nat)
    ensures r < Pow2(n)
  {
    if n == 0 then 0 else ToWord(f(a % 2 == 1, b % 2 == 1)) + 2 * Bitwise(n - 1, f, a / 2, b / 2)
  }

  function BitOperator(f: (bool, bool) -> bool, a: Word, b: Word): Word {
    WordPowers();
    Bitwise(64, f, a, b)
  }

  function BitOr(a: Word, b: Word): Word { BitOperator((x, y) => x || y, a, b) }

  function BitXor(a: Word, b: Word): Word { BitOperator((x, y) => x != y, a, b) }

  function BitAnd(a: Word, b: Word): Word { BitOperator((x, y) => x && y, a, b) }

  function ShiftLeft(a: Word, n: Word): Word {
    Wrapped(a * Pow2(n))
  }

  function ShiftRight(a: Word, n: Word): Word {
    DividedIsSmaller(a, Pow2(n));
    a / Pow2(n)
  }

  /** Division rounding toward zero. */
  function Quotient(x: int, y: int): int
    requires y != 0
  {
    if x >= 0 then x / y else -((-x) / y)
  }

  function Remainder(x: int, y: int): int
    requires y != 0
  {
    x - Quotient(x, y) * y
  }

  /** Subtraction modulo 2^64. */
  function Minus(a: Word, b: Word): Word {
    if a >= b then a - b else a - b + TWO64
  }

  function IfKnown(e: Vector, f: Vector, r: Word): Vector {
    if IsJustUnknown(e) || IsJustUnknown(f) then UnknownVector() else Scalar(r)
  }

  predicate IsScalar(v: Vector) {
    IsSimple(v) || IsJustUnknown(v)
  }

  /** What the source reads off a scalar difference: it is stored into an int first. */
  predicate Ordered(op: BinaryOp, difference: Word) {
    var vv := Low32(difference);
    if vv == 0 then op == Le || op == Ge else if vv > 0 then op == Ge || op == Gt else op == Le || op == Lt
  }

  function Compare(op: BinaryOp, e: Vector, f: Vector): Vector {
    Compared(op, AddVectors(e, ScalarMult(f, MINUS_ONE)))
  }

  function Compared(op: BinaryOp, d: Vector): Vector {
    if IsUnknown(d) then UnknownVector()
    else if op == Eq || op == Ne then
      Scalar(ToWord((op == Ne) == (!IsReallySimple(d) || ScalarPart(d) != 0)))
    else if !IsReallySimple(d) then Scalar(0)
    else Scalar(ToWord(Ordered(op, ScalarPart(d))))
  }

  /** On plain vectors = holds, and <> does not, exactly when both operands denote the same vector. */
  lemma EqualityIsSameness(e: Vector, f: Vector)
    requires Plain(e) && Plain(f)
    ensures Compare(Eq, e, f) == Scalar(if SameVector(e, f) then 1 else 0)
    ensures Compare(Ne, e, f) == Scalar(if SameVector(e, f) then 0 else 1)
  {
    EqualityTest(e, f);
  }

  /** The operators that the source applies to two plain numbers in one C expression. */
  type WordOps = (BinaryOp, Word, Word) -> Word

  /** Those operators; division by zero is excluded before they are applied. */
  function MachineOp(op: BinaryOp, a: Word, b: Word): Word {
    match op
    case OrOr => ToWord(a != 0 || b != 0)
    case XorXor => ToWord((a == 0) != (b == 0))
    case AndAnd => ToWord(a != 0 && b != 0)
    case Or => BitOr(a, b)
    case Xor => BitXor(a, b)
    case And => BitAnd(a, b)
    case Shl => ShiftLeft(a, b)
    case Shr => ShiftRight(a, b)
    case Div => if b == 0 then 0 else a / b
    case Mod => if b == 0 then 0 else a % b
    case SDiv => if b == 0 then 0 else Wrapped(Quotient(Signed(a), Signed(b)))
    case SMod => if b == 0 then 0 else Wrapped(Remainder(Signed(a), Signed(b)))
    case _ => 0
  }

  predicate IsDivision(op: BinaryOp) {
    op == Div || op == Mod || op == SDiv || op == SMod
  }

  /** One binary operator, with the source's own tests; None when it reports failure. */
  function Combine(ops: WordOps, op: BinaryOp, e: Vector, f: Vector): Option<Vector> {
    var a, b := ScalarPart(e), ScalarPart(f);
    if Level(op) == 3 then Some(Compare(op, e, f))
    else if op == Add then Some(AddVectors(e, f))
    else if op == Sub then Some(AddVectors(e, ScalarMult(f, MINUS_ONE)))
    else if op == Mul then
      if IsSimple(e) then Some(ScalarMult(f, a))
      else if IsSimple(f) then Some(ScalarMult(e, b))
      else if IsJustUnknown(e) && IsJustUnknown(f) then Some(UnknownVector())
      else None
    else CombineScalars(ops, op, e, f)
  }

  /** The operators for scalars only. Shifting anything else leaves it as it is, dividing fails. */
  function CombineScalars(ops: WordOps, op: BinaryOp, e: Vector, f: Vector): Option<Vector> {
    var a, b := ScalarPart(e), ScalarPart(f);
    var scalars := IsScalar(e) && IsScalar(f);
    if IsDivision(op) && (!scalars || (!IsUnknown(f) && b == 0)) then None
    else if (op == Shl || op == Shr) && !scalars then Some(e)
    else Some(IfKnown(e, f, ops(op, a, b)))
  }

  function Apply(seg: SegmentPart, u: UnaryOp, e: Vector): Option<Vector> {
    match u
    case Negate => Some(ScalarMult(e, MINUS_ONE))
    case Keep => Some(e)
    case Invert =>
      if IsJustUnknown(e) then Some(UnknownVector())
      else if !IsSimple(e) then None
      else Some(Scalar(TWO64 - 1 - ScalarPart(e)))
    case Not =>
      if IsJustUnknown(e) then Some(UnknownVector())
      else if !IsSimple(e) then None
      else Some(Scalar(ToWord(ScalarPart(e) == 0)))
    case Segment => seg(e)
  }

  /** What operators compute, as the parser sees it: the parser does not look inside. */
  datatype Algebra = Algebra(
    combine: (BinaryOp, Vector, Vector) -> Option<Vector>,
    apply: (UnaryOp, Vector) -> Option<Vector>)

  function Computed(ops: WordOps, seg: SegmentPart): Algebra {
    Algebra((op, e, f) => Combine(ops, op, e, f), (u, e) => Apply(seg, u, e))
  }

  // ---------- The recursive descent, as functions ----------

  datatype Parsed = Fail | Ok(value: Vector, rest: seq<Token>)

  /** The functions rexp0 (level 0) to expr5 (level 9), and expr6 (level 10); `top` is where `(` starts again. */
  function Parse(alg: Algebra, top: nat, level: nat, ts: seq<Token>): (r: Parsed)
    requires top <= 10 && level <= 10
    ensures r.Ok? ==> |r.rest| < |ts|
    decreases |ts|, 10 - level, 1
  {
    if level == 10 then Primary(alg, top, ts)
    else
      var first := Parse(alg, top, level + 1, ts);
      if first.Fail? then Fail else More(alg, top, level, first.value, first.rest)
  }

  /** The loop of one level: as long as an operator of the level comes next, take it and its right operand. */
  function More(alg: Algebra, top: nat, level: nat, e: Vector, ts: seq<Token>): (r: Parsed)
    requires top <= 10 && level < 10
    ensures r.Ok? ==> |r.rest| <= |ts|
    decreases |ts|, 10 - level, 0
  {
    if ts == [] || !ts[0].Binary? || Level(ts[0].op) != level then Ok(e, ts)
    else
      var right := Parse(alg, top, level + 1, ts[1..]);
      if right.Fail? then Fail
      else
        var c := alg.combine(ts[0].op, e, right.value);
        if c.None? then Fail else More(alg, top, level, c.value, right.rest)
  }

  function Primary(alg: Algebra, top: nat, ts: seq<Token>): (r: Parsed)
    requires top <= 10
    ensures r.Ok? ==> |r.rest| < |ts|
    decreases |ts|, 0, 0
  {
    if ts == [] then Fail
    else if UnaryOf(ts[0]).Some? then
      var e := Primary(alg, top, ts[1..]);
      if e.Fail? then Fail
      else
        var v := alg.apply(UnaryOf(ts[0]).value, e.value);
        if v.None? then Fail else Ok(v.value, e.rest)
    else if ts[0].Open? then
      var e := Parse(alg, top, top, ts[1..]);
      if e.Fail? || e.rest == [] || !e.rest[0].Close? then Fail else Ok(e.value, e.rest[1..])
    else if ts[0].Atom? && ts[0].vector.Some? then Ok(ts[0].vector.value, ts[1..])
    else Fail
  }

  // ---------- The specification ----------

  datatype Expr =
    | Leaf(vector: Vector)
    | Unary(u: UnaryOp, e: Expr)
    | Group(e: Expr)
    | Node(op: BinaryOp, l: Expr, r: Expr)

  /** A tree's value, from its operands up. */
  function Value(alg: Algebra, t: Expr): Option<Vector> {
    match t
    case Leaf(v) => Some(v)
    case Unary(u, e) => var v := Value(alg, e); if v.None? then None else alg.apply(u, v.value)
    case Group(e) => Value(alg, e)
    case Node(op, l, r) =>
      var a, b := Value(alg, l), Value(alg, r);
      if a.None? || b.None? then None else alg.combine(op, a.value, b.value)
  }

  function Tokens(t: Expr): seq<Token> {
    match t
    case Leaf(v) => [Atom(Some(v))]
    case Unary(u, e) => [SignOf(u)] + Tokens(e)
    case Group(e) => [Open] + (Tokens(e) + [Close])
    case Node(op, l, r) => Tokens(l) + ([Binary(op)] + Tokens(r))
  }

  /** The grammar: a tree may stand where an operand of `level` is expected. */
  predicate Fits(top: nat, level: nat, t: Expr)
    decreases t
  {
    match t
    case Leaf(_) => true
    case Unary(_, e) => Fits(top, 10, e)
    case Group(e) => Fits(top, top, e)
    case Node(op, l, r) => level <= Level(op) && Fits(top, Level(op), l) && Fits(top, Level(op) + 1, r)
  }

  /** `ts` does not go on with an operator of `level` or a tighter one. */
  predicate Stops(level: nat, ts: seq<Token>) {
    ts != [] && ts[0].Binary? ==> Level(ts[0].op) < level
  }

  function Outcome(v: Option<Vector>, rest: seq<Token>): Parsed {
    if v.None? then Fail else Ok(v.value, rest)
  }

  // ---------- The tokens of a tree are parsed to its value ----------

  lemma {:induction false} ParseTree(alg: Algebra, top: nat, level: nat, t: Expr, rest: seq<Token>)
    requires top <= 10 && level <= 10 && Fits(top, level, t) && Stops(level, rest)
    ensures Parse(alg, top, level, Tokens(t) + rest) == Outcome(Value(alg, t), rest)
    decreases t, 10 - level, 1
  {
    if level == 10 {
      PrimaryTree(alg, top, t, rest);
    } else {
      ParseUpTo(alg, top, level, t, rest);
    }
  }

  /** Before an operator of the same level, the parser is in its loop with the tree's value. */
  lemma {:induction false} ParseUpTo(alg: Algebra, top: nat, level: nat, t: Expr, rest: seq<Token>)
    requires top <= 10 && level < 10 && Fits(top, level, t) && Stops(level + 1, rest)
    ensures Parse(alg, top, level, Tokens(t) + rest)
         == if Value(alg, t).None? then Fail else More(alg, top, level, Value(alg, t).value, rest)
    decreases t, 10 - level, 0
  {
    if t.Node? && Level(t.op) == level {
      var tail := [Binary(t.op)] + (Tokens(t.r) + rest);
      assert Tokens(t) + rest == Tokens(t.l) + tail;
      ParseUpTo(alg, top, level, t.l, tail);
      assert tail[1..] == Tokens(t.r) + rest;
      ParseTree(alg, top, level + 1, t.r, rest);
    } else {
      ParseTree(alg, top, level + 1, t, rest);
    }
  }

  lemma {:induction false} PrimaryTree(alg: Algebra, top: nat, t: Expr, rest: seq<Token>)
    requires top <= 10 && Fits(top, 10, t)
    ensures Primary(alg, top, Tokens(t) + rest) == Outcome(Value(alg, t), rest)
    decreases t, 0, 0
  {
    var ts := Tokens(t) + rest;
    match t
    case Leaf(v) =>
      assert ts[0] == Atom(Some(v)) && ts[1..] == rest;
    case Unary(u, e) =>
      assert ts[0] == SignOf(u) && ts[1..] == Tokens(e) + rest;
      PrimaryTree(alg, top, e, rest);
    case Group(e) =>
      var tail := [Close] + rest;
      assert ts[0] == Open && ts[1..] == Tokens(e) + tail && tail[1..] == rest;
      ParseTree(alg, top, top, e, tail);
  }

  // ---------- Whatever is parsed is the tokens of a tree ----------

  lemma {:induction false} ParseSound(alg: Algebra, top: nat, level: nat, ts: seq<Token>) returns (t: Expr)
    requires top <= 10 && level <= 10 && Parse(alg, top, level, ts).Ok?
    ensures var p := Parse(alg, top, level, ts);
      Fits(top, level, t) && Stops(level, p.rest) && ts == Tokens(t) + p.rest && Value(alg, t) == Some(p.value)
    decreases |ts|, 10 - level, 2
  {
    if level == 10 {
      t := PrimarySound(alg, top, ts);
    } else {
      var first := Parse(alg, top, level + 1, ts);
      var l := ParseSound(alg, top, level + 1, ts);
      FitsLower(top, level, l);
      t := MoreSound(alg, top, level, l, first.value, first.rest);
    }
  }

  lemma FitsLower(top: nat, level: nat, t: Expr)
    requires Fits(top, level + 1, t)
    ensures Fits(top, level, t)
  {
  }

  lemma {:induction false} MoreSound(alg: Algebra, top: nat, level: nat, l: Expr, e: Vector, ts: seq<Token>)
    returns (t: Expr)
    requires top <= 10 && level < 10 && Fits(top, level, l) && Value(alg, l) == Some(e) && Stops(level + 1, ts)
    requires More(alg, top, level, e, ts).Ok?
    ensures var p := More(alg, top, level, e, ts);
      && Fits(top, level, t) && Stops(level, p.rest)
      && Tokens(l) + ts == Tokens(t) + p.rest && Value(alg, t) == Some(p.value)
    decreases |ts|, 10 - level, 0
  {
    if ts == [] || !ts[0].Binary? || Level(ts[0].op) != level {
      t := l;
    } else {
      var right := Parse(alg, top, level + 1, ts[1..]);
      var r := ParseSound(alg, top, level + 1, ts[1..]);
      var n := Node(ts[0].op, l, r);
      assert Tokens(l) + ts == Tokens(n) + right.rest by {
        assert ts == [ts[0]] + (Tokens(r) + right.rest);
      }
      t := MoreSound(alg, top, level, n, alg.combine(ts[0].op, e, right.value).value, right.rest);
    }
  }

  lemma SignAgain(t: Token)
    requires UnaryOf(t).Some?
    ensures SignOf(UnaryOf(t).value) == t
  {
  }

  lemma {:induction false} PrimarySound(alg: Algebra, top: nat, ts: seq<Token>) returns (t: Expr)
    requires top <= 10 && Primary(alg, top, ts).Ok?
    ensures var p := Primary(alg, top, ts);
      Fits(top, 10, t) && ts == Tokens(t) + p.rest && Value(alg, t) == Some(p.value)
    decreases |ts|, 0, 1
  {
    if UnaryOf(ts[0]).Some? {
      t := UnarySound(alg, top, ts);
    } else if ts[0].Open? {
      t := GroupSound(alg, top, ts);
    } else {
      t := Leaf(ts[0].vector.value);
    }
  }

  lemma {:induction false} UnarySound(alg: Algebra, top: nat, ts: seq<Token>) returns (t: Expr)
    requires top <= 10 && Primary(alg, top, ts).Ok? && UnaryOf(ts[0]).Some?
    ensures var p := Primary(alg, top, ts);
      Fits(top, 10, t) && ts == Tokens(t) + p.rest && Value(alg, t) == Some(p.value)
    decreases |ts|, 0, 0
  {
    var e := PrimarySound(alg, top, ts[1..]);
    t := Unary(UnaryOf(ts[0]).value, e);
    SignAgain(ts[0]);
    Rejoined(ts, Tokens(e), Primary(alg, top, ts).rest);
  }

  lemma {:induction false} GroupSound(alg: Algebra, top: nat, ts: seq<Token>) returns (t: Expr)
    requires top <= 10 && Primary(alg, top, ts).Ok? && ts[0].Open?
    ensures var p := Primary(alg, top, ts);
      Fits(top, 10, t) && ts == Tokens(t) + p.rest && Value(alg, t) == Some(p.value)
    decreases |ts|, 0, 0
  {
    var rest := Primary(alg, top, ts).rest;
    var inner := Parse(alg, top, top, ts[1..]);
    var e := ParseSound(alg, top, top, ts[1..]);
    t := Group(e);
    assert inner.rest == [Close] + rest;
    assert Tokens(e) + ([Close] + rest) == (Tokens(e) + [Close]) + rest;
    Rejoined(ts, Tokens(e) + [Close], rest);
  }

  lemma Rejoined<T>(ts: seq<T>, a: seq<T>, b: seq<T>)
    requires ts != [] && ts[1..] == a + b
    ensures ts == ([ts[0]] + a) + b
  {
    assert ts == [ts[0]] + ts[1..];
  }

  /** The grammar assigns the token string to a tree with value `v`. */
  ghost predicate Denotes(alg: Algebra, top: nat, ts: seq<Token>, v: Vector) {
    exists t :: Fits(top, top, t) && Tokens(t) == ts && Value(alg, t) == Some(v)
  }

  /** The evaluator accepts exactly the grammar's token strings, with their trees' values. */
  lemma ParsesExactlyTheGrammar(alg: Algebra, top: nat, ts: seq<Token>, v: Vector)
    requires top <= 10
    ensures Parse(alg, top, top, ts) == Ok(v, []) <==> Denotes(alg, top, ts, v)
  {
    if Parse(alg, top, top, ts) == Ok(v, []) {
      var t := ParseSound(alg, top, top, ts);
      assert Tokens(t) + [] == Tokens(t);
    }
    forall t | Fits(top, top, t) && Tokens(t) == ts && Value(alg, t) == Some(v)
      ensures Parse(alg, top, top, ts) == Ok(v, [])
    {
      ParseTree(alg, top, top, t, []);
      assert Tokens(t) + [] == Tokens(t);
    }
  }

  // ---------- Every tree can be written ----------

  /** The tree with a pair of parentheses wherever its operand is looser than its place. */
  function Parenthesised(level: nat, top: nat, t: Expr): Expr
    decreases t
  {
    match t
    case Leaf(_) => t
    case Unary(u, e) => Unary(u, Parenthesised(10, top, e))
    case Group(e) => Group(Parenthesised(top, top, e))
    case Node(op, l, r) =>
      var n := Node(op, Parenthesised(Level(op), top, l), Parenthesised(Level(op) + 1, top, r));
      if Level(op) < level then Group(n) else n
  }

  predicate OperatorsFrom(top: nat, t: Expr) {
    match t
    case Leaf(_) => true
    case Unary(_, e) => OperatorsFrom(top, e)
    case Group(e) => OperatorsFrom(top, e)
    case Node(op, l, r) => top <= Level(op) && OperatorsFrom(top, l) && OperatorsFrom(top, r)
  }

  lemma {:induction false} ParenthesisedFits(alg: Algebra, level: nat, top: nat, t: Expr)
    requires OperatorsFrom(top, t)
    ensures Fits(top, level, Parenthesised(level, top, t))
    ensures Value(alg, Parenthesised(level, top, t)) == Value(alg, t)
    decreases t
  {
    match t
    case Leaf(_) =>
    case Unary(_, e) => ParenthesisedFits(alg, 10, top, e);
    case Group(e) => ParenthesisedFits(alg, top, top, e);
    case Node(op, l, r) =>
      ParenthesisedFits(alg, Level(op), top, l);
      ParenthesisedFits(alg, Level(op) + 1, top, r);
  }

  /** Any tree of operators the mode allows, written with its parentheses, is evaluated to its value. */
  lemma WrittenTreeIsEvaluated(alg: Algebra, top: nat, t: Expr)
    requires top <= 10 && OperatorsFrom(top, t)
    ensures Parse(alg, top, top, Tokens(Parenthesised(top, top, t))) == Outcome(Value(alg, t), [])
  {
    var written := Parenthesised(top, top, t);
    ParenthesisedFits(alg, top, top, t);
    ParseTree(alg, top, top, written, []);
    assert Tokens(written) + [] == Tokens(written);
  }

  // ---------- Scalar expressions ----------

  /** A 64-bit operator on numbers, stated without vectors; None for division by zero. */
  function NumberOp(ops: WordOps, op: BinaryOp, a: Word, b: Word): Option<Word> {
    match op
    case Eq => Some(ToWord(a == b))
    case Ne => Some(ToWord(a != b))
    case Lt => Some(ToWord(Signed(a) < Signed(b)))
    case Gt => Some(ToWord(Signed(a) > Signed(b)))
    case Le => Some(ToWord(Signed(a) <= Signed(b)))
    case Ge => Some(ToWord(Signed(a) >= Signed(b)))
    case Add => Some(Wrapped(a + b))
    case Sub => Some(Minus(a, b))
    case Mul => Some(Wrapped(a * b))
    case _ => PlainOp(ops, op, a, b)
  }

  function PlainOp(ops: WordOps, op: BinaryOp, a: Word, b: Word): Option<Word> {
    if IsDivision(op) && b == 0 then None else Some(ops(op, a, b))
  }

  function NumberUnary(u: UnaryOp, a: Word): Word {
    match u
    case Negate => Minus(0, a)
    case Invert => TWO64 - 1 - a
    case Not => ToWord(a == 0)
    case _ => a
  }

  /**
   Where C defines the operator and the source's 32-bit comparison reads the difference right: shift
   counts below 64, no overflow in signed division, and for ordered comparisons `DifferenceReads`.
   */
  predicate OpInRange(op: BinaryOp, a: Word, b: Word) {
    match op
    case Shl => b < 64
    case Shr => b < 64
    case SDiv => !(Signed(a) == -0x8000_0000_0000_0000 && Signed(b) == -1)
    case SMod => !(Signed(a) == -0x8000_0000_0000_0000 && Signed(b) == -1)
    case Lt => DifferenceReads(op, a, b)
    case Gt => DifferenceReads(op, a, b)
    case Le => DifferenceReads(op, a, b)
    case Ge => DifferenceReads(op, a, b)
    case _ => true
  }

  /**
   The difference as `high` times 2^32 and a signed low half, which is all that the comparison looks at.
   It reads the difference right when there is no high part, or when the low half has its sign: below
   zero or not for < and >=, above zero or not for > and <=.
   */
  predicate DifferenceReads(op: BinaryOp, a: Word, b: Word) {
    var d := Signed(a) - Signed(b);
    var high := (d + 0x8000_0000) / 0x1_0000_0000;
    var low := d - high * 0x1_0000_0000;
    high == 0 || (if op == Lt || op == Ge then (high < 0) == (low < 0) else (high > 0) == (low > 0))
  }

  function Number(ops: WordOps, t: Expr): Option<Word> {
    match t
    case Leaf(v) => Some(ScalarPart(v))
    case Unary(u, e) => var a := Number(ops, e); if a.None? then None else Some(NumberUnary(u, a.value))
    case Group(e) => Number(ops, e)
    case Node(op, l, r) =>
      var a, b := Number(ops, l), Number(ops, r);
      if a.None? || b.None? then None else NumberOp(ops, op, a.value, b.value)
  }

  /** Numbers only, no SEG, and every operator in range. */
  predicate IsNumeric(ops: WordOps, t: Expr) {
    match t
    case Leaf(v) => HoldsNumber(v)
    case Unary(u, e) => u != Segment && IsNumeric(ops, e)
    case Group(e) => IsNumeric(ops, e)
    case Node(op, l, r) =>
      && IsNumeric(ops, l) && IsNumeric(ops, r)
      && (Number(ops, l).Some? && Number(ops, r).Some? ==> OpInRange(op, Number(ops, l).value, Number(ops, r).value))
  }

  /** The vectors that scalars are kept in: the scalar term alone, or nothing for a sum that came to 0. */
  predicate HoldsNumber(v: Vector) {
    v == [] || (|v| == 1 && v[0].kind == SIMPLE)
  }

  lemma NumberVector(v: Vector)
    requires HoldsNumber(v)
    ensures IsSimple(v) && IsReallySimple(v) && !IsUnknown(v) && !IsJustUnknown(v)
    ensures v != [] ==> v == Scalar(v[0].value) && ScalarPart(v) == v[0].value
    ensures v == [] ==> ScalarPart(v) == 0
  {
    if v != [] {
      assert v == [v[0]] && v[1..] == [];
      assert SkipZeros(v[1..]) == [];
    }
  }

  lemma ScalarProduct(x: Word, k: Word)
    ensures ScalarMult(Scalar(x), k) == Scalar(Times(k, x))
  {
    assert Scalar(x)[1..] == [];
  }

  lemma NumberProduct(v: Vector, k: Word)
    requires HoldsNumber(v)
    ensures HoldsNumber(ScalarMult(v, k)) && ScalarPart(ScalarMult(v, k)) == Times(k, ScalarPart(v))
  {
    NumberVector(v);
    if v != [] {
      ScalarProduct(v[0].value, k);
      NumberVector(Scalar(Times(k, v[0].value)));
    }
  }

  lemma ScalarSum(x: Word, y: Word, preserve: bool)
    ensures Merge(Scalar(x), Scalar(y), preserve) == if Plus(x, y) == 0 then [] else Scalar(Plus(x, y))
    ensures Merge([], Scalar(y), preserve) == Scalar(y) && Merge(Scalar(x), [], preserve) == Scalar(x)
  {
    assert Scalar(x)[1..] == [] && Scalar(y)[1..] == [];
    assert Kept(Scalar(x), preserve) == Scalar(x) && Kept(Scalar(y), preserve) == Scalar(y);
    assert Merge([], [], preserve) == [];
  }

  lemma NumberSum(v: Vector, w: Vector)
    requires HoldsNumber(v) && HoldsNumber(w)
    ensures HoldsNumber(AddVectors(v, w)) && ScalarPart(AddVectors(v, w)) == Plus(ScalarPart(v), ScalarPart(w))
  {
    NumberVector(v);
    NumberVector(w);
    var preserve := IsReallySimple(v) || IsReallySimple(w);
    ScalarSum(ScalarPart(v), ScalarPart(w), preserve);
    var sum := Plus(ScalarPart(v), ScalarPart(w));
    if v == [] && w == [] {
      assert Merge(v, w, preserve) == [];
    } else if v == [] {
      assert Merge(v, w, preserve) == w;
    } else if w == [] {
      assert Merge(v, w, preserve) == v;
    } else {
      assert Merge(v, w, preserve) == if sum == 0 then [] else Scalar(sum);
      NumberVector(Scalar(sum));
    }
  }

  lemma NumberDifference(v: Vector, w: Vector, g: Vector)
    requires HoldsNumber(v) && HoldsNumber(w) && g == ScalarMult(w, MINUS_ONE)
    ensures HoldsNumber(AddVectors(v, g)) && ScalarPart(AddVectors(v, g)) == Minus(ScalarPart(v), ScalarPart(w))
  {
    NumberProduct(w, MINUS_ONE);
    NumberSum(v, g);
    DifferenceOf(ScalarPart(v), ScalarPart(w), ScalarPart(g), ScalarPart(AddVectors(v, g)));
  }

  lemma WholeDifference(a: Word, b: Word)
    ensures var d := Signed(a) - Signed(b);
      Minus(a, b) == d || Minus(a, b) == d + TWO64 || Minus(a, b) == d - TWO64
  {
  }

  lemma LowOf(x: Word, low: int, high: int)
    requires -0x8000_0000 <= low < 0x8000_0000 && x == low + high * 0x1_0000_0000
    ensures Low32(x) == low
  {
    var positive := if low < 0 then low + 0x1_0000_0000 else low;
    DivideBy(x, 0x1_0000_0000, if low < 0 then high - 1 else high, positive);
  }

  /** What is kept of a difference in an int is its signed low half. */
  lemma LowHalf(a: Word, b: Word)
    ensures var d := Signed(a) - Signed(b); var high := (d + 0x8000_0000) / 0x1_0000_0000;
      Low32(Minus(a, b)) == d - high * 0x1_0000_0000
  {
    var d := Signed(a) - Signed(b);
    var high := (d + 0x8000_0000) / 0x1_0000_0000;
    var low := d - high * 0x1_0000_0000;
    assert -0x8000_0000 <= low < 0x8000_0000;
    WholeDifference(a, b);
    var k := if Minus(a, b) == d then 0 else if Minus(a, b) == d + TWO64 then 0x1_0000_0000 else -0x1_0000_0000;
    LowOf(Minus(a, b), low, high + k);
  }

  /** An ordered comparison of numbers comes out right exactly where the low half reads right. */
  lemma OrderedIsRight(op: BinaryOp, a: Word, b: Word)
    requires op == Lt || op == Gt || op == Le || op == Ge
    ensures Some(ToWord(Ordered(op, Minus(a, b)))) == NumberOp(MachineOp, op, a, b) <==> DifferenceReads(op, a, b)
  {
    LowHalf(a, b);
  }

  lemma CompareWords(ops: WordOps, op: BinaryOp, a: Word, b: Word)
    requires Level(op) == 3 && OpInRange(op, a, b)
    ensures var x := Minus(a, b);
      NumberOp(ops, op, a, b) == Some(ToWord(if op == Eq then x == 0 else if op == Ne then x != 0 else Ordered(op, x)))
  {
    if op != Eq && op != Ne {
      OrderedIsRight(op, a, b);
    }
  }

  lemma ComparedNumber(op: BinaryOp, d: Vector, x: Word)
    requires HoldsNumber(d) && ScalarPart(d) == x
    ensures Compared(op, d) == Scalar(ToWord(if op == Eq then x == 0 else if op == Ne then x != 0 else Ordered(op, x)))
  {
    NumberVector(d);
  }

  /** A vector result and a number result that agree. */
  predicate Carries(c: Option<Vector>, n: Option<Word>) {
    if n.None? then c.None? else c.Some? && HoldsNumber(c.value) && ScalarPart(c.value) == n.value
  }

  lemma ScalarCarries(x: Word)
    ensures Carries(Some(Scalar(x)), Some(x))
  {
    NumberVector(Scalar(x));
  }

  lemma CompareCarries(ops: WordOps, op: BinaryOp, v: Vector, w: Vector)
    requires HoldsNumber(v) && HoldsNumber(w) && Level(op) == 3 && OpInRange(op, ScalarPart(v), ScalarPart(w))
    ensures Carries(Some(Compare(op, v, w)), NumberOp(ops, op, ScalarPart(v), ScalarPart(w)))
  {
    var a, b := ScalarPart(v), ScalarPart(w);
    var g := ScalarMult(w, MINUS_ONE);
    NumberDifference(v, w, g);
    ComparedNumber(op, AddVectors(v, g), Minus(a, b));
    CompareWords(ops, op, a, b);
    ScalarCarries(NumberOp(ops, op, a, b).value);
  }

  lemma MulCarries(v: Vector, w: Vector)
    requires HoldsNumber(v) && HoldsNumber(w)
    ensures IsSimple(v) && Carries(Some(ScalarMult(w, ScalarPart(v))), Some(Wrapped(ScalarPart(v) * ScalarPart(w))))
  {
    NumberVector(v);
    NumberProduct(w, ScalarPart(v));
  }

  lemma ScalarsCarry(ops: WordOps, op: BinaryOp, v: Vector, w: Vector)
    requires HoldsNumber(v) && HoldsNumber(w)
    ensures Carries(CombineScalars(ops, op, v, w), PlainOp(ops, op, ScalarPart(v), ScalarPart(w)))
  {
    NumberVector(v);
    NumberVector(w);
    ScalarCarries(ops(op, ScalarPart(v), ScalarPart(w)));
  }

  lemma CombineCarries(ops: WordOps, op: BinaryOp, v: Vector, w: Vector)
    requires HoldsNumber(v) && HoldsNumber(w) && OpInRange(op, ScalarPart(v), ScalarPart(w))
    ensures Carries(Combine(ops, op, v, w), NumberOp(ops, op, ScalarPart(v), ScalarPart(w)))
  {
    if Level(op) == 3 {
      CompareCarries(ops, op, v, w);
    } else if op == Add {
      NumberSum(v, w);
    } else if op == Sub {
      NumberDifference(v, w, ScalarMult(w, MINUS_ONE));
    } else if op == Mul {
      MulCarries(v, w);
    } else {
      ScalarsCarry(ops, op, v, w);
    }
  }

  /** For every numeric tree the evaluator's vectors carry the tree's 64-bit number, errors included. */
  lemma {:induction false} NumericTree(ops: WordOps, seg: SegmentPart, t: Expr)
    requires IsNumeric(ops, t)
    ensures Carries(Value(Computed(ops, seg), t), Number(ops, t))
  {
    match t
    case Leaf(_) =>
    case Unary(u, e) =>
      NumericTree(ops, seg, e);
      if Number(ops, e).Some? {
        UnaryCarries(ops, seg, u, Value(Computed(ops, seg), e).value);
      }
    case Group(e) => NumericTree(ops, seg, e);
    case Node(op, l, r) =>
      NumericTree(ops, seg, l);
      NumericTree(ops, seg, r);
      if Number(ops, l).Some? && Number(ops, r).Some? {
        CombineCarries(ops, op, Value(Computed(ops, seg), l).value, Value(Computed(ops, seg), r).value);
      }
  }

  lemma UnaryCarries(ops: WordOps, seg: SegmentPart, u: UnaryOp, v: Vector)
    requires HoldsNumber(v) && u != Segment
    ensures Carries(Apply(seg, u, v), Some(NumberUnary(u, ScalarPart(v))))
  {
    if u == Negate {
      NumberProduct(v, MINUS_ONE);
      TimesMinusOne(ScalarPart(v), ScalarPart(ScalarMult(v, MINUS_ONE)));
    } else if u != Keep {
      NumberVector(v);
      ScalarCarries(NumberUnary(u, ScalarPart(v)));
    }
  }

  /** A numeric tree, written out with its parentheses, is evaluated to its 64-bit number. */
  lemma NumbersAreEvaluated(seg: SegmentPart, top: nat, t: Expr)
    requires top <= 10 && OperatorsFrom(top, t) && IsNumeric(MachineOp, t)
    ensures var p := Parse(Computed(MachineOp, seg), top, top, Tokens(Parenthesised(top, top, t)));
      match Number(MachineOp, t)
      case None => p.Fail?
      case Some(x) => p.Ok? && p.rest == [] && HoldsNumber(p.value) && ScalarPart(p.value) == x
  {
    WrittenTreeIsEvaluated(Computed(MachineOp, seg), top, t);
    NumericTree(MachineOp, seg, t);
  }

  /** The evaluator's ordered comparison of two numbers is the comparison of the numbers exactly where the low half
      reads right. */
  lemma ComparisonIsRight(op: BinaryOp, a: Word, b: Word)
    requires op == Lt || op == Gt || op == Le || op == Ge
    ensures Compare(op, Scalar(a), Scalar(b)) == Scalar(NumberOp(MachineOp, op, a, b).value) <==>
      DifferenceReads(op, a, b)
  {
    var v, w, g := Scalar(a), Scalar(b), ScalarMult(Scalar(b), MINUS_ONE);
    NumberVector(v);
    NumberVector(w);
    NumberDifference(v, w, g);
    ComparedNumber(op, AddVectors(v, g), Minus(a, b));
    OrderedIsRight(op, a, b);
    assert forall x: Word, y: Word :: Scalar(x) == Scalar(y) ==> Scalar(x)[0] == Scalar(y)[0];
  }

  /** So 2^32 > 0 is taken for false, and 2^31 > 0 too. */
  lemma ComparisonLosesTheHighHalf()
    ensures Compare(Gt, Scalar(0x1_0000_0000), Scalar(0)) != Scalar(1)
    ensures Compare(Gt, Scalar(0x8000_0000), Scalar(0)) != Scalar(1)
  {
    ComparisonIsRight(Gt, 0x1_0000_0000, 0);
    ComparisonIsRight(Gt, 0x8000_0000, 0);
  }

  // ---------- The recursive descent, as the source runs it ----------

  /** The evaluator's state: the token string and the current position in it. */
  class Descent {
    const tokens: seq<Token>
    const alg: Algebra
    const top: nat
    var pos: nat

    ghost predicate Valid()
      reads this
    {
      pos <= |tokens| && top <= 10
    }

    constructor (alg: Algebra, top: nat, tokens: seq<Token>)
      requires top <= 10
      ensures Valid() && pos == 0 && this.alg == alg && this.top == top && this.tokens == tokens
    {
      this.alg, this.top, this.tokens, this.pos := alg, top, tokens, 0;
    }

    /** The outcome stands for `p`, and on success the position is where `p` says it is. */
    ghost predicate Reached(p: Parsed, value: Option<Vector>)
      reads this
    {
      Valid() && (if p.Fail? then value.None? else value == Some(p.value) && tokens[pos..] == p.rest)
    }

    method ParseLevel(level: nat) returns (value: Option<Vector>)
      requires Valid() && level <= 10
      modifies this
      ensures Reached(Parse(alg, top, level, old(tokens[pos..])), value)
      ensures value.Some? ==> old(pos) < pos
      decreases |tokens| - pos, 10 - level, 1
    {
      ghost var goal := Parse(alg, top, level, tokens[pos..]);
      if level == 10 {
        value := ParsePrimary();
        return;
      }
      ghost var start := pos;
      value := ParseLevel(level + 1);
      if value.None? {
        return;
      }
      while pos < |tokens| && tokens[pos].Binary? && Level(tokens[pos].op) == level
        invariant Valid() && start < pos && value.Some?
        invariant More(alg, top, level, value.value, tokens[pos..]) == goal
        decreases |tokens| - pos
      {
        var op := tokens[pos].op;
        assert tokens[pos..][1..] == tokens[pos + 1..];
        pos := pos + 1;
        var right := ParseLevel(level + 1);
        if right.None? {
          return None;
        }
        value := alg.combine(op, value.value, right.value);
        if value.None? {
          return;
        }
      }
    }

    method ParsePrimary() returns (value: Option<Vector>)
      requires Valid()
      modifies this
      ensures Reached(Primary(alg, top, old(tokens[pos..])), value)
      ensures value.Some? ==> old(pos) < pos
      decreases |tokens| - pos, 0, 0
    {
      ghost var ts := tokens[pos..];
      if pos == |tokens| {
        return None;
      }
      var t := tokens[pos];
      assert ts[0] == t && ts[1..] == tokens[pos + 1..];
      if UnaryOf(t).Some? {
        pos := pos + 1;
        value := ParsePrimary();
        if value.Some? {
          value := alg.apply(UnaryOf(t).value, value.value);
        }
      } else if t.Open? {
        pos := pos + 1;
        value := ParseLevel(top);
        if value.Some? {
          if pos == |tokens| || !tokens[pos].Close? {
            return None;
          }
          assert tokens[pos..][1..] == tokens[pos + 1..];
          pos := pos + 1;
        }
      } else if t.Atom? && t.vector.Some? {
        value := t.vector;
        pos := pos + 1;
      } else {
        value := None;
      }
    }
  }

  /** Evaluating a whole token string: it succeeds exactly on the grammar's strings, with the tree's value. */
  method Evaluate(alg: Algebra, top: nat, tokens: seq<Token>) returns (value: Option<Vector>)
    requires top <= 10
    ensures forall v :: Denotes(alg, top, tokens, v) <==> value == Some(v)
  {
    var d := new Descent(alg, top, tokens);
    assert tokens[0..] == tokens;
    value := d.ParseLevel(top);
    if value.Some? && d.pos < |tokens| {
      value := None;
    }
    forall v: Vector
      ensures Denotes(alg, top, tokens, v) <==> value == Some(v)
    {
      ParsesExactlyTheGrammar(alg, top, tokens, v);
    }
  }
}
