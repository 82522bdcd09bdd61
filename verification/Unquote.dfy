/**
 Unquoting in place and skipping (asm/aasm-quote.cpp): `aasm_unquote`, `emit_utf8`, `aasm_skip_string`.

 The write cursor never passes the start of the escape being read, so no unread byte is overwritten.
 */
module Unquote {
  import opened Common
  import opened Quote

  datatype State = Start | AfterSlash | InHex | InOctal | InUcs

  /** The local variables of the reader. */
  datatype Cursor = Cursor(p: nat, q: nat, st: State, ndig: nat, nval: int, escp: nat)

  /** A 32-bit number as the int32_t it is kept in. */
  function AsInt32(x: int): int {
    var y := x % 0x1_0000_0000;
    if y < 0x8000_0000 then y else y - 0x1_0000_0000
  }

  function KindOf(c: Byte): State {
    if IsOctal(c) then InOctal else if c == 117 /* u */ || c == 85 /* U */ then InUcs else InHex
  }

  // ---------- Bounds ----------

  function Cap(n: nat, base: int): int {
    if n == 0 then 1 else Cap(n - 1, base) * base
  }

  lemma {:induction false} NumberBound(t: seq<Byte>, i: nat, n: nat, base: int)
    requires i + n <= |t| && (base == 8 || base == 16) && AllDigits(t, i, n, base)
    ensures 0 <= Number(t, i, n, base) < Cap(n, base)
  {
    if n > 0 {
      NumberBound(t, i, n - 1, base);
      assert IsDigit(t[i + n - 1], base) && 0 <= DigitValue(t[i + n - 1]) < base;
      if base == 8 {
      } else {
        assert base == 16;
      }
    }
  }

  lemma Caps(n: nat)
    requires n <= 8
    ensures n <= 3 ==> Cap(n, 8) <= 512
    ensures Cap(n, 16) <= 0x1_0000_0000
    ensures n <= 7 ==> Cap(n, 16) <= 0x1000_0000
    ensures n <= 3 ==> Cap(n, 16) <= 0x1000
    ensures n <= 2 ==> Cap(n, 16) <= 0x100
    ensures n <= 1 ==> Cap(n, 16) <= 0x10
  {
    assert Cap(0, 16) == 1 && Cap(0, 8) == 1;
    assert Cap(1, 16) == 0x10 && Cap(1, 8) == 8;
    assert Cap(2, 16) == 0x100 && Cap(2, 8) == 64;
    assert Cap(3, 16) == 0x1000 && Cap(3, 8) == 512;
    assert Cap(4, 16) == 0x1_0000;
    assert Cap(5, 16) == 0x10_0000;
    assert Cap(6, 16) == 0x100_0000;
    assert Cap(7, 16) == 0x1000_0000;
    assert Cap(8, 16) == 0x1_0000_0000;
  }

  /** What an escape stands for is no longer than the escape. */
  lemma NumericFits(c: Byte, n: nat, v: int, base: int)
    requires IsNumeric(c) && n <= MostDigits(c) && base == Base(c) && 0 <= v < Cap(n, base)
    requires IsOctal(c) ==> n >= 1
    ensures |NumericBytes(c, n, v)| <= (if IsOctal(c) then n else n + 1)
  {
    Caps(n);
  }

  // ---------- emit_utf8 ----------

  method Put(a: array<Byte>, q: nat, bytes: seq<Byte>) returns (r: nat)
    requires q + |bytes| <= a.Length
    modifies a
    ensures r == q + |bytes|
    ensures a[..r] == old(a[..q]) + bytes
    ensures forall k :: r <= k < a.Length ==> a[k] == old(a[k])
  {
    var i := 0;
    while i < |bytes|
      invariant i <= |bytes|
      invariant a[..q + i] == old(a[..q]) + bytes[..i]
      invariant forall k :: q + i <= k < a.Length ==> a[k] == old(a[k])
    {
      a[q + i] := bytes[i];
      i := i + 1;
    }
    return q + i;
  }

  /** `emit_utf8`, at place `q`. */
  method EmitUtf8(a: array<Byte>, q: nat, v: int) returns (r: nat)
    requires v < 0x8000_0000 && q + |Utf8(v)| <= a.Length
    modifies a
    ensures r == q + |Utf8(v)|
    ensures a[..r] == old(a[..q]) + Utf8(v)
    ensures forall k :: r <= k < a.Length ==> a[k] == old(a[k])
  {
    if v < 0 {
      return q;
    }
    var bytes := Encode(v);
    r := Put(a, q, bytes);
  }

  method Encode(v: nat) returns (bytes: seq<Byte>)
    requires v < 0x8000_0000
    ensures bytes == Utf8(v)
  {
    HeadIs(v);
    TailsAre(v);
    var low := 0x80 + v % 64;
    if v <= 0x7f {
      bytes := [v];
    } else if v <= 0x7ff {
      bytes := [0xc0 + v / 64, low];
    } else if v <= 0xffff {
      bytes := [0xe0 + v / 0x1000, 0x80 + (v / 64) % 64, low];
    } else if v <= 0x1f_ffff {
      bytes := [0xf0 + v / 0x4_0000, 0x80 + (v / 0x1000) % 64, 0x80 + (v / 64) % 64, low];
    } else if v <= 0x3ff_ffff {
      bytes := [0xf8 + v / 0x100_0000, 0x80 + (v / 0x4_0000) % 64, 0x80 + (v / 0x1000) % 64, 0x80 + (v / 64) % 64, low];
    } else {
      bytes := [0xfc + v / 0x4000_0000, 0x80 + (v / 0x100_0000) % 64, 0x80 + (v / 0x4_0000) % 64,
                0x80 + (v / 0x1000) % 64, 0x80 + (v / 64) % 64, low];
    }
  }

  lemma TailsAre(v: nat)
    ensures Tails(v, 0) == []
    ensures Tails(v, 1) == [0x80 + v % 64]
    ensures Tails(v, 2) == [0x80 + (v / 64) % 64, 0x80 + v % 64]
    ensures Tails(v, 3) == [0x80 + (v / 0x1000) % 64, 0x80 + (v / 64) % 64, 0x80 + v % 64]
    ensures Tails(v, 4) == [0x80 + (v / 0x4_0000) % 64, 0x80 + (v / 0x1000) % 64, 0x80 + (v / 64) % 64, 0x80 + v % 64]
    ensures Tails(v, 5) == [0x80 + (v / 0x100_0000) % 64, 0x80 + (v / 0x4_0000) % 64, 0x80 + (v / 0x1000) % 64,
                            0x80 + (v / 64) % 64, 0x80 + v % 64]
  {
    HeadIs(v);
    assert Tails(v, 1) == [0x80 + Head(v, 0) % 64] + Tails(v, 0);
    assert Tails(v, 2) == [0x80 + Head(v, 1) % 64] + Tails(v, 1);
    assert Tails(v, 3) == [0x80 + Head(v, 2) % 64] + Tails(v, 2);
    assert Tails(v, 4) == [0x80 + Head(v, 3) % 64] + Tails(v, 3);
    assert Tails(v, 5) == [0x80 + Head(v, 4) % 64] + Tails(v, 4);
  }

  // ---------- aasm_unquote inside backquotes ----------

  /** The reader is between escapes, after a backslash, or some digits into the escape that begins at `e`. */
  ghost predicate Pending(t: seq<Byte>, e: nat, cur: Cursor)
    requires e <= |t|
  {
    if cur.st.Start? then cur.p == e
    else if cur.st.AfterSlash? then cur.p == e + 1 <= |t| && t[e] == SLASH
    else InNumber(t, e, cur)
  }

  ghost predicate InNumber(t: seq<Byte>, e: nat, cur: Cursor) {
    && e + 1 < |t| && t[e] == SLASH && IsNumeric(t[e + 1])
    && var c := t[e + 1]; var from := DigitsFrom(c, e); var n := cur.p - from;
    && cur.st == KindOf(c) && cur.escp == e + 2
    && 0 <= n && cur.p <= |t| && n + cur.ndig == MostDigits(c) && (IsOctal(c) ==> n >= 1)
    && AllDigits(t, from, n, Base(c)) && cur.nval == AsInt32(Number(t, from, n, Base(c)))
  }

  /** What was written and what the rest stands for make up the whole; nothing from `e` on is touched. */
  ghost predicate Held(was: seq<Byte>, now: seq<Byte>, e: nat, q: nat, rest: Result, whole: Result) {
    && q <= e < |was| == |now|
    && (forall k :: e <= k < |now| ==> now[k] == was[k])
    && whole == Then(now[..q], rest)
  }

  /** Writing what a piece stands for, in no more room than the piece took. */
  lemma Wrote(was: seq<Byte>, now: seq<Byte>, e: nat, q: nat, rest: Result, whole: Result,
              bytes: seq<Byte>, after: seq<Byte>, e2: nat, rest2: Result)
    requires Held(was, now, e, q, rest, whole) && e <= e2 < |was|
    requires rest == Then(bytes, rest2)
    requires q + |bytes| <= e2 && |after| == |now| && after[..q + |bytes|] == now[..q] + bytes
    requires forall k :: e2 <= k < |now| ==> after[k] == now[k]
    ensures Held(was, after, e2, q + |bytes|, rest2, whole)
  {
    assert (now[..q] + bytes) + rest2.out == now[..q] + (bytes + rest2.out);
  }

  /** One byte outside escapes. */
  method StepStart(a: array<Byte>, ghost was: seq<Byte>, ghost t: seq<Byte>, cur: Cursor, ghost rest: Result,
                   ghost whole: Result)
    returns (next: Cursor, ghost rest2: Result, ghost e2: nat)
    requires |t| < a.Length == |was| && t == was[..|t|] && cur.st.Start? && cur.p < |t| && a[cur.p] != BACK
    requires rest == Meaning(t, cur.p) && Held(was, a[..], cur.p, cur.q, rest, whole)
    modifies a
    ensures e2 <= |t| && Pending(t, e2, next) && next.p == cur.p + 1 && (next.st.Start? || next.st.AfterSlash?)
    ensures rest2 == Meaning(t, e2) && Held(was, a[..], e2, next.q, rest2, whole)
  {
    var c := a[cur.p];
    assert c == t[cur.p];
    if c == SLASH {
      return cur.(st := AfterSlash, p := cur.p + 1), rest, cur.p;
    }
    ghost var now := a[..];
    rest2, e2 := Meaning(t, cur.p + 1), cur.p + 1;
    a[cur.q] := c;
    Wrote(was, now, cur.p, cur.q, rest, whole, [c], a[..], e2, rest2);
    next := cur.(p := cur.p + 1, q := cur.q + 1);
  }

  /** The byte after a backslash. */
  method StepSlash(a: array<Byte>, ghost was: seq<Byte>, ghost t: seq<Byte>, ghost e: nat, cur: Cursor,
                   ghost rest: Result, ghost whole: Result)
    returns (next: Cursor, ghost rest2: Result, ghost e2: nat)
    requires |t| < a.Length == |was| && t == was[..|t|] && cur.st.AfterSlash? && cur.p < |t| && e <= |t|
      && Pending(t, e, cur)
    requires rest == Meaning(t, e) && Held(was, a[..], e, cur.q, rest, whole)
    modifies a
    ensures e2 <= |t| && Pending(t, e2, next) && next.p == cur.p + 1
    ensures !next.st.Start? && !next.st.AfterSlash? ==> next.ndig > 0
    ensures rest2 == Meaning(t, e2) && Held(was, a[..], e2, next.q, rest2, whole)
  {
    var c := a[cur.p];
    assert c == t[cur.p];
    if IsNumeric(c) {
      next := StartNumber(t, e, cur, c);
      return next, rest, e;
    }
    var b := LetterOf(c);
    ReadLetter(t, e, c);
    ghost var now := a[..];
    rest2, e2 := Meaning(t, e + 2), e + 2;
    a[cur.q] := b;
    Wrote(was, now, e, cur.q, rest, whole, [b], a[..], e2, rest2);
    next := cur.(p := cur.p + 1, q := cur.q + 1, st := Start, nval := 0, escp := cur.p + 1);
  }

  method LetterOf(c: Byte) returns (b: Byte)
    ensures b == LetterByte(c)
  {
    match c
    case 97 /* a */ => b := 7;
    case 98 /* b */ => b := 8;
    case 101 /* e */ => b := 27;
    case 102 /* f */ => b := 12;
    case 110 /* n */ => b := 10;
    case 114 /* r */ => b := 13;
    case 116 /* t */ => b := 9;
    case 118 /* v */ => b := 11;
    case _ => b := c;
  }

  method StartNumber(ghost t: seq<Byte>, ghost e: nat, cur: Cursor, c: Byte) returns (next: Cursor)
    requires e + 1 < |t| && t[e] == SLASH && t[e + 1] == c && IsNumeric(c) && cur.p == e + 1
    ensures InNumber(t, e, next) && next.p == cur.p + 1 && next.q == cur.q && next.ndig > 0
  {
    next := cur.(p := cur.p + 1, escp := cur.p + 1, nval := 0);
    if c == 117 /* u */ {
      next := next.(st := InUcs, ndig := 4);
    } else if c == 85 /* U */ {
      next := next.(st := InUcs, ndig := 8);
    } else if c == 120 /* x */ || c == 88 /* X */ {
      next := next.(st := InHex, ndig := 2);
    } else {
      next := next.(st := InOctal, ndig := 2, nval := c - 48);
      assert Number(t, e + 1, 1, 8) == Number(t, e + 1, 0, 8) * 8 + DigitValue(c) == c - 48;
    }
  }

  ghost predicate NumberOver(t: seq<Byte>, e: nat, cur: Cursor) {
    InNumber(t, e, cur) && (cur.ndig == 0 || cur.p == |t| || !IsDigit(t[cur.p], Base(t[e + 1])))
  }

  /** The value the reader holds when an escape is over writes what the escape stands for. */
  lemma NumberDone(t: seq<Byte>, e: nat, cur: Cursor) returns (bytes: seq<Byte>)
    requires NumberOver(t, e, cur)
    ensures Meaning(t, e) == Then(bytes, Meaning(t, cur.p)) && |bytes| < cur.p - e
    ensures cur.nval < 0x8000_0000
    ensures bytes == if cur.st.InOctal? then [cur.nval % 256] else if cur.p == cur.escp then [t[e + 1]]
                     else if cur.st.InHex? then [cur.nval % 256] else Utf8(cur.nval)
  {
    var c := t[e + 1];
    var from := DigitsFrom(c, e);
    var n := cur.p - from;
    var v := Number(t, from, n, Base(c));
    NumericMeaning(t, e, n);
    NumberBound(t, from, n, Base(c));
    NumericFits(c, n, v, Base(c));
    bytes := NumericBytes(c, n, v);
    HeldValue(c, n, v, cur.nval);
  }

  lemma HeldValue(c: Byte, n: nat, v: int, nval: int)
    requires IsNumeric(c) && n <= MostDigits(c) && 0 <= v < Cap(n, Base(c)) && nval == AsInt32(v)
    ensures nval < 0x8000_0000
    ensures KindOf(c).InUcs? && n > 0 ==> NumericBytes(c, n, v) == Utf8(nval)
    ensures !KindOf(c).InUcs? ==> nval == v
  {
    hide Cap, Utf8;
    Caps(n);
  }

  /** The end of an escape with digits. */
  method Emit(a: array<Byte>, ghost was: seq<Byte>, ghost t: seq<Byte>, ghost e: nat, cur: Cursor, ghost rest: Result,
              ghost whole: Result)
    returns (next: Cursor, ghost rest2: Result)
    requires |t| < a.Length == |was| && t == was[..|t|] && NumberOver(t, e, cur)
    requires rest == Meaning(t, e) && Held(was, a[..], e, cur.q, rest, whole)
    modifies a
    ensures next.st.Start? && next.p == cur.p <= |t|
    ensures rest2 == Meaning(t, cur.p) && Held(was, a[..], cur.p, next.q, rest2, whole)
  {
    ghost var bytes := NumberDone(t, e, cur);
    rest2 := Meaning(t, cur.p);
    var q := WriteNumber(a, cur, bytes, t[e + 1], was, e, rest, whole, rest2);
    next := cur.(st := Start, q := q);
  }

  method WriteNumber(a: array<Byte>, cur: Cursor, ghost bytes: seq<Byte>, ghost c: Byte, ghost was: seq<Byte>,
                     ghost e: nat,
                     ghost rest: Result, ghost whole: Result, ghost rest2: Result) returns (q: nat)
    requires cur.nval < 0x8000_0000 && cur.escp == e + 2 && e + 1 < cur.p < a.Length && |bytes| < cur.p - e
    requires cur.st.InOctal? || cur.st.InHex? || cur.st.InUcs?
    requires bytes == if cur.st.InOctal? then [cur.nval % 256] else if cur.p == cur.escp then [c]
                      else if cur.st.InHex? then [cur.nval % 256] else Utf8(cur.nval)
    requires Held(was, a[..], e, cur.q, rest, whole) && rest == Then(bytes, rest2) && was[e + 1] == c
    requires !cur.st.InOctal? ==> cur.p >= cur.escp
    modifies a
    ensures Held(was, a[..], cur.p, q, rest2, whole)
  {
    ghost var now := a[..];
    q := cur.q;
    assert cur.q + |bytes| < cur.p;
    if cur.st.InOctal? {
      a[q] := cur.nval % 256;
      q := q + 1;
    } else if cur.p > cur.escp {
      if cur.st.InHex? {
        a[q] := cur.nval % 256;
        q := q + 1;
      } else {
        q := EmitUtf8(a, q, cur.nval);
      }
    } else {
      a[q] := a[cur.escp - 1];
      q := q + 1;
    }
    Wrote(was, now, e, cur.q, rest, whole, bytes, a[..], cur.p, rest2);
  }

  /** While more digits may follow, the number so far fits an int. */
  lemma HeldIsNumber(t: seq<Byte>, e: nat, cur: Cursor, c: Byte, from: nat)
    requires InNumber(t, e, cur) && cur.ndig > 0 && c == t[e + 1] && from == DigitsFrom(c, e)
    ensures cur.p >= from && cur.nval == Number(t, from, cur.p - from, Base(c))
  {
    hide Cap, Number;
    var n := cur.p - from;
    NumberBound(t, from, n, Base(c));
    Caps(n);
  }

  lemma OneMoreNumber(t: seq<Byte>, i: nat, n: nat, base: int)
    requires i + n < |t|
    ensures Number(t, i, n + 1, base) == Number(t, i, n, base) * base + DigitValue(t[i + n])
  {
  }

  /** One more digit: the value and the count go on in step. */
  lemma OneDigitMore(t: seq<Byte>, e: nat, cur: Cursor, next: Cursor)
    requires InNumber(t, e, cur) && cur.ndig > 0 && cur.p < |t| && IsDigit(t[cur.p], Base(t[e + 1]))
    requires next == cur.(p := cur.p + 1, ndig := cur.ndig - 1,
      nval := AsInt32(cur.nval * Base(t[e + 1]) + DigitValue(t[cur.p])))
    ensures InNumber(t, e, next)
  {
    hide Cap, IsNumeric, DigitsFrom, MostDigits, Base;
    var c := t[e + 1];
    var from := DigitsFrom(c, e);
    HeldIsNumber(t, e, cur, c, from);
    OneMoreNumber(t, from, cur.p - from, Base(c));
  }

  /** One byte inside an escape with digits. */
  method StepDigit(a: array<Byte>, ghost was: seq<Byte>, ghost t: seq<Byte>, ghost e: nat, cur: Cursor,
                   ghost rest: Result, ghost whole: Result)
    returns (next: Cursor, ghost rest2: Result, ghost e2: nat)
    requires |t| < a.Length == |was| && t == was[..|t|] && InNumber(t, e, cur) && cur.ndig > 0 && cur.p < |t|
    requires rest == Meaning(t, e) && Held(was, a[..], e, cur.q, rest, whole)
    modifies a
    ensures e2 <= |t| && Pending(t, e2, next)
    ensures !next.st.Start? ==> InNumber(t, e2, next) && next.ndig > 0
    ensures cur.p <= next.p && (cur.p == next.p ==> next.st.Start?)
    ensures rest2 == Meaning(t, e2) && Held(was, a[..], e2, next.q, rest2, whole)
  {
    var c := a[cur.p];
    assert c == t[cur.p];
    var base := if cur.st.InOctal? then 8 else 16;
    assert base == Base(t[e + 1]);
    if IsDigit(c, base) {
      next := cur.(p := cur.p + 1, ndig := cur.ndig - 1, nval := AsInt32(cur.nval * base + DigitValue(c)));
      OneDigitMore(t, e, cur, next);
      rest2, e2 := rest, e;
      if next.ndig == 0 {
        e2 := next.p;
        next, rest2 := Emit(a, was, t, e, next, rest, whole);
      }
    } else {
      e2 := cur.p;
      next, rest2 := Emit(a, was, t, e, cur, rest, whole);
    }
  }

  /** `t` is the text before the first NUL. */
  ghost predicate IsText(s: seq<Byte>, t: seq<Byte>) {
    |t| < |s| && t == s[..|t|] && s[|t|] == 0 && 0 !in t
  }

  /** What is left when the text is over. */
  method Finish(a: array<Byte>, ghost was: seq<Byte>, ghost t: seq<Byte>, ghost e: nat, cur: Cursor,
                ghost rest: Result, ghost whole: Result)
    returns (q: nat)
    requires IsText(was, t) && a.Length == |was| && e <= |t| && Pending(t, e, cur)
    requires rest == Meaning(t, e) && Held(was, a[..], e, cur.q, rest, whole)
    requires cur.p == |t| || (cur.st.Start? && t[cur.p] == BACK)
    modifies a
    ensures q <= cur.p && whole == Result(a[..q], cur.p)
    ensures forall k :: cur.p <= k < a.Length ==> a[k] == was[k]
  {
    q := cur.q;
    if !cur.st.Start? && !cur.st.AfterSlash? {
      var next;
      ghost var rest2;
      next, rest2 := Emit(a, was, t, e, cur, rest, whole);
      q := next.q;
      assert rest2 == Result([], cur.p);
    } else {
      assert rest == Result([], cur.p);
    }
    assert a[..q] + [] == a[..q];
  }

  /** One byte in any state. */
  method Step(a: array<Byte>, ghost was: seq<Byte>, ghost t: seq<Byte>, ghost e: nat, cur: Cursor, ghost rest: Result,
              ghost whole: Result)
    returns (next: Cursor, ghost rest2: Result, ghost e2: nat)
    requires |t| < a.Length == |was| && t == was[..|t|] && e <= |t| && Pending(t, e, cur) && cur.p < |t|
    requires !(cur.st.Start? && t[cur.p] == BACK)
    requires !cur.st.Start? && !cur.st.AfterSlash? ==> cur.ndig > 0
    requires rest == Meaning(t, e) && Held(was, a[..], e, cur.q, rest, whole)
    modifies a
    ensures e2 <= next.p <= |t| && Pending(t, e2, next)
    ensures !next.st.Start? && !next.st.AfterSlash? ==> next.ndig > 0
    ensures cur.p <= next.p && (cur.p == next.p ==> !cur.st.Start? && next.st.Start?)
    ensures rest2 == Meaning(t, e2) && Held(was, a[..], e2, next.q, rest2, whole)
  {
    if cur.st.Start? {
      next, rest2, e2 := StepStart(a, was, t, cur, rest, whole);
    } else if cur.st.AfterSlash? {
      next, rest2, e2 := StepSlash(a, was, t, e, cur, rest, whole);
    } else {
      next, rest2, e2 := StepDigit(a, was, t, e, cur, rest, whole);
    }
  }

  method UnquoteBack(a: array<Byte>, ghost t: seq<Byte>) returns (p: nat, q: nat)
    requires IsText(a[..], t) && t != [] && t[0] == BACK
    modifies a
    ensures q <= p <= |t| && Meaning(t, 1) == Result(a[..q], p)
    ensures forall k :: p <= k < a.Length ==> a[k] == old(a[k])
  {
    ghost var was := a[..];
    ghost var whole := Meaning(t, 1);
    ghost var rest, e: nat := whole, 1;
    var cur := Cursor(1, 0, Start, 0, 0, 0);
    assert [] + whole.out == whole.out;
    while a[cur.p] != 0 && !(cur.st.Start? && a[cur.p] == BACK)
      invariant a.Length == |was| && IsText(was, t)
      invariant e <= cur.p <= |t| && Pending(t, e, cur)
      invariant !cur.st.Start? && !cur.st.AfterSlash? ==> cur.ndig > 0
      invariant rest == Meaning(t, e) && Held(was, a[..], e, cur.q, rest, whole)
      decreases |t| - cur.p, if cur.st.Start? then 0 else 1
    {
      assert cur.p < |t|;
      cur, rest, e := Step(a, was, t, e, cur, rest, whole);
    }
    p := cur.p;
    q := Finish(a, was, t, e, cur, rest, whole);
  }

  // ---------- aasm_unquote ----------

  method UnquotePlain(a: array<Byte>, ghost t: seq<Byte>) returns (p: nat, q: nat)
    requires IsText(a[..], t) && t != []
    modifies a
    ensures p == PlainEnd(t, t[0], 1) && q == p - 1 && a[..q] == t[1..p]
    ensures forall k :: p <= k < a.Length ==> a[k] == old(a[k])
  {
    var bq := a[0];
    p, q := 1, 0;
    while a[p] != 0 && a[p] != bq
      invariant 1 <= p <= |t| && q == p - 1
      invariant PlainEnd(t, bq, p) == PlainEnd(t, bq, 1)
      invariant a[..q] == t[1..p]
      invariant forall k :: p <= k < a.Length ==> a[k] == old(a[k])
      decreases |t| - p
    {
      a[q] := a[p];
      p, q := p + 1, q + 1;
    }
    ghost var now := a[..q];
    a[q] := 0;
    assert a[..q] == now;
  }

  method TextLength(a: array<Byte>, ghost t: seq<Byte>) returns (n: nat)
    requires IsText(a[..], t)
    ensures n == |t|
  {
    n := 0;
    while a[n] != 0
      invariant n <= |t|
      decreases |t| - n
    {
      n := n + 1;
    }
  }

  /** `aasm_unquote`: the array begins with what the text stands for, and from the end on it is as it was. */
  method Unquote(a: array<Byte>, ghost t: seq<Byte>) returns (len: nat, end: Option<nat>)
    requires IsText(a[..], t)
    modifies a
    ensures len <= |t| && a[..len] == Unquoted(t).out
    ensures end == if t == [] then None else Some(Unquoted(t).end)
    ensures forall k :: Unquoted(t).end <= k < a.Length ==> a[k] == old(a[k])
  {
    var bq := a[0];
    if bq == 0 {
      return 0, None;
    }
    assert bq == t[0];
    var p;
    if bq == SINGLE || bq == DOUBLE {
      p, len := UnquotePlain(a, t);
    } else if bq == BACK {
      p, len := UnquoteBack(a, t);
      SameEnd(t, 1);
    } else {
      p := TextLength(a, t);
      len := p;
    }
    end := Some(p);
  }

  /** Quoting a string and unquoting it in place gives it back, whatever bytes it holds. */
  method QuoteThenUnquote(s: seq<Byte>) returns (a: array<Byte>, len: nat, end: Option<nat>)
    ensures len == |s| <= a.Length && a[..len] == s
    ensures end == Some(|Quoted(s)| - 1)
  {
    a := Quote.Quote(s);
    NoNul(s);
    UnquotedQuoted(s);
    ghost var t := Quoted(s);
    assert IsText(a[..], t);
    len, end := Unquote(a, t);
  }

  // ---------- aasm_skip_string ----------

  /** What `aasm_skip_string` returns, as an index. */
  function Skipped(t: seq<Byte>): nat {
    if t == [] || !IsQuote(t[0]) then 0
    else if t[0] != BACK then PlainEnd(t, t[0], 1)
    else if SkipEnd(t, 1) < |t| then SkipEnd(t, 1)
    else |t| + 1
  }

  method SkipString(a: array<Byte>, ghost t: seq<Byte>) returns (p: nat)
    requires IsText(a[..], t)
    ensures p == Skipped(t)
  {
    var bq := a[0];
    if bq == SINGLE || bq == DOUBLE {
      p := 1;
      while a[p] != 0 && a[p] != bq
        invariant 1 <= p <= |t| && PlainEnd(t, bq, p) == PlainEnd(t, bq, 1)
        decreases |t| - p
      {
        p := p + 1;
      }
    } else if bq == BACK {
      p := SkipBack(a, t);
    } else {
      p := 0;
    }
  }

  method SkipBack(a: array<Byte>, ghost t: seq<Byte>) returns (p: nat)
    requires IsText(a[..], t) && t != [] && t[0] == BACK
    ensures p == Skipped(t)
  {
    p := 1;
    var slash := false;
    while a[p] != 0
      invariant 1 <= p <= |t|
      invariant slash ==> p >= 2 && t[p - 1] == SLASH
      invariant SkipEnd(t, 1) == SkipEnd(t, if slash then p - 1 else p)
      decreases |t| - p
    {
      var c := a[p];
      if slash {
        slash := false;
      } else if c == SLASH {
        slash := true;
      } else if c == BACK {
        return p;
      }
      p := p + 1;
    }
    p := p + 1;
  }

  /** Skipping and unquoting agree on the end of a quoted string exactly when a backquoted one is closed. */
  lemma SkipAgrees(t: seq<Byte>)
    requires t != [] && IsQuote(t[0])
    ensures Skipped(t) == Unquoted(t).end <==> !(t[0] == BACK && SkipEnd(t, 1) == |t|)
    ensures t[0] == BACK && Skipped(t) == Unquoted(t).end ==> Skipped(t) < |t| && t[Skipped(t)] == BACK
  {
    if t[0] == BACK {
      SameEnd(t, 1);
      SkipEndCloses(t, 1);
    }
  }

  /** The end that both find is a closing quote when there is one. */
  lemma {:induction false} SkipEndCloses(t: seq<Byte>, i: nat)
    requires i <= |t|
    ensures SkipEnd(t, i) < |t| ==> t[SkipEnd(t, i)] == BACK
    decreases |t| - i
  {
    if i < |t| && t[i] != BACK {
      SkipEndCloses(t, if t[i] == SLASH && i + 1 < |t| then i + 2 else i + 1);
    }
  }
}
