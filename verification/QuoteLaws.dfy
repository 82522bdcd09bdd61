/**
 What quoted texts look like and what their escapes stand for (asm/aasm-quote.cpp), by tables of digits and letters
 and by the ranges of UTF-8.
 */
module QuoteLaws {
  import opened Common
  import opened Quote

  // ---------- Digits ----------

  const CAPITALS: string := "0123456789ABCDEF"
  const SMALL: string := "0123456789abcdef"

  /** The digit of value `d`, in either case. */
  predicate IsDigitOf(c: Byte, d: nat) {
    d < 16 && (c == CAPITALS[d] as int || c == SMALL[d] as int)
  }

  lemma DigitTables(d: nat)
    requires d < 16
    ensures CAPITALS[d] as int == if d < 10 then 48 + d else 55 + d
    ensures SMALL[d] as int == if d < 10 then 48 + d else 87 + d
  {
  }

  lemma DigitIs(c: Byte, d: nat)
    requires IsDigitOf(c, d)
    ensures IsHex(c) && DigitValue(c) == d && (IsOctal(c) <==> d < 8)
  {
    DigitTables(d);
  }

  /** A hexadecimal digit is an entry of one of the tables, an octal one an entry below 8. */
  lemma DigitsMean(c: Byte)
    ensures IsHex(c) <==> IsDigitIn(c, 16)
    ensures IsOctal(c) <==> IsDigitIn(c, 8)
  {
    if IsHex(c) {
      var d := if c >= 97 then c - 87 else if c >= 65 then c - 55 else c - 48;
      DigitTables(d);
      assert IsDigitOf(c, d);
    }
    forall d: nat | IsDigitOf(c, d)
      ensures IsHex(c) && (IsOctal(c) <==> d < 8)
    {
      DigitIs(c, d);
    }
  }

  /** The `n` characters at `i` are the digits of `v`, the most significant first. */
  predicate Writes(t: seq<Byte>, i: nat, n: nat, base: nat, v: nat)
    requires i + n <= |t| && base > 0
  {
    if n == 0 then v == 0 else IsDigitOf(t[i + n - 1], v % base) && Writes(t, i, n - 1, base, v / base)
  }

  /** What the digits of a number are read as is the number. */
  lemma {:induction false} WrittenNumber(t: seq<Byte>, i: nat, n: nat, base: nat, v: nat)
    requires i + n <= |t| && (base == 8 || base == 16) && Writes(t, i, n, base, v)
    ensures AllDigits(t, i, n, base) && Number(t, i, n, base) == v
  {
    hide IsDigitOf, DigitValue, IsHex, IsOctal;
    if n > 0 {
      var w := v / base;
      WrittenNumber(t, i, n - 1, base, w);
      DigitIs(t[i + n - 1], v % base);
      assert v == w * base + v % base;
    }
  }

  // ---------- Escapes with digits ----------

  ghost predicate IsDigitIn(c: Byte, base: nat) {
    exists d: nat :: d < base && IsDigitOf(c, d)
  }

  /** `n` digits of `v` at `i`, and no further one behind them, or no more allowed. */
  ghost predicate Ended(t: seq<Byte>, i: nat, n: nat, base: nat, v: nat, most: nat) {
    && i + n <= |t| && 1 <= n <= most && base > 0 && Writes(t, i, n, base, v)
    && (n == most || i + n == |t| || !IsDigitIn(t[i + n], base))
  }

  lemma EscapeReads(t: seq<Byte>, i: nat, c: Byte, from: nat, n: nat, v: nat)
    requires i + 1 < |t| && t[i] == 92 && t[i + 1] == c && IsNumeric(c) && from == DigitsFrom(c, i)
    requires Ended(t, from, n, Base(c), v, MostDigits(c))
    ensures Meaning(t, i) == Then(NumericBytes(c, n, v), Meaning(t, from + n))
  {
    hide Meaning, NumericBytes;
    WrittenNumber(t, from, n, Base(c), v);
    if from + n < |t| {
      DigitsMean(t[from + n]);
    }
    NumericMeaning(t, i, n);
  }

  /** `\x` or `\X` and up to two hexadecimal digits are the byte. */
  lemma HexEscape(t: seq<Byte>, i: nat, n: nat, v: nat)
    requires i + 1 < |t| && t[i] == 92 && (t[i + 1] == 'x' as int || t[i + 1] == 'X' as int)
    requires Ended(t, i + 2, n, 16, v, 2)
    ensures v < 256 && Meaning(t, i) == Then([v], Meaning(t, i + 2 + n))
  {
    hide Meaning;
    TwoDigits(t, i + 2, n, v);
    EscapeReads(t, i, t[i + 1], i + 2, n, v);
  }

  lemma TwoDigits(t: seq<Byte>, i: nat, n: nat, v: nat)
    requires i + n <= |t| && n <= 2 && Writes(t, i, n, 16, v)
    ensures v < 256
  {
    if n > 0 {
      assert Writes(t, i, n - 1, 16, v / 16);
      if n > 1 {
        assert Writes(t, i, n - 2, 16, v / 16 / 16);
      }
    }
  }

  /** A backslash and up to three octal digits are the byte that the low eight bits make. */
  lemma OctalEscape(t: seq<Byte>, i: nat, n: nat, v: nat)
    requires i + 1 < |t| && t[i] == 92 && Ended(t, i + 1, n, 8, v, 3)
    ensures Meaning(t, i) == Then([v % 256], Meaning(t, i + 1 + n))
  {
    hide Meaning;
    WrittenNumber(t, i + 1, n, 8, v);
    assert IsDigit(t[i + 1], 8);
    EscapeReads(t, i, t[i + 1], i + 1, n, v);
  }

  /** `\u` and up to four digits, or `\U` and up to eight, are the UTF-8 bytes of the code point, from 2^31 on none. */
  lemma CodePointEscape(t: seq<Byte>, i: nat, n: nat, v: nat, bytes: seq<Byte>)
    requires i + 1 < |t| && t[i] == 92 && (t[i + 1] == 'u' as int || t[i + 1] == 'U' as int)
    requires Ended(t, i + 2, n, 16, v, if t[i + 1] == 'u' as int then 4 else 8)
    requires if v < 0x8000_0000 then IsUtf8(bytes, v) else bytes == []
    ensures Meaning(t, i) == Then(bytes, Meaning(t, i + 2 + n))
  {
    hide Meaning, Utf8, IsUtf8;
    if v < 0x8000_0000 {
      OneUtf8(bytes, v);
    }
    EscapeReads(t, i, t[i + 1], i + 2, n, v);
  }

  /** So a backquoted text of one escape is its byte, or the bytes of its code point. */
  lemma OneEscape(h: Byte, l: Byte, v: nat)
    requires v < 256 && IsDigitOf(h, v / 16) && IsDigitOf(l, v % 16)
    ensures Unquoted([96, 92, 120, h, l, 96]) == Result([v], 5)
    ensures Unquoted([96, 92, 88, h, l, 96]) == Result([v], 5)
  {
    OneHexEscape(120, h, l, v);
    OneHexEscape(88, h, l, v);
  }

  lemma OneHexEscape(x: Byte, h: Byte, l: Byte, v: nat)
    requires v < 256 && IsDigitOf(h, v / 16) && IsDigitOf(l, v % 16) && (x == 120 || x == 88)
    ensures Unquoted([96, 92, x, h, l, 96]) == Result([v], 5)
  {
    var t: seq<Byte> := [96, 92, x, h, l, 96];
    assert Writes(t, 3, 0, 16, 0) && Writes(t, 3, 1, 16, v / 16) && Writes(t, 3, 2, 16, v);
    HexEscape(t, 1, 2, v);
    assert Meaning(t, 5) == Result([], 5);
  }

  // ---------- UTF-8 ----------

  predicate Continues(b: Byte) {
    0x80 <= b < 0xc0
  }

  /** The marks of first bytes by the length of the form, and the least code point of each length. */
  const MARKS: seq<int> := [0, 0xc0, 0xe0, 0xf0, 0xf8, 0xfc]
  const LEAST: seq<int> := [0, 0x80, 0x800, 0x1_0000, 0x20_0000, 0x400_0000, 0x8000_0000]

  /** What six bits more in each continuation byte make of `first`. */
  function Collected(first: int, tails: seq<Byte>): int
    decreases |tails|
  {
    if tails == [] then first else Collected(first * 0x40 + (tails[0] as int - 0x80), tails[1..])
  }

  /** The bytes are the shortest UTF-8 form of the code point. */
  predicate IsUtf8(r: seq<Byte>, v: nat) {
    && 1 <= |r| <= 6 && MARKS[|r| - 1] <= r[0] && (forall k :: 1 <= k < |r| ==> Continues(r[k]))
    && LEAST[|r| - 1] <= v < LEAST[|r|] && Collected(r[0] - MARKS[|r| - 1], r[1..]) == v
  }

  lemma {:induction false} TailsContinue(v: nat, k: nat)
    ensures forall j :: 0 <= j < k ==> Continues(Tails(v, k)[j])
    ensures Collected(Head(v, k), Tails(v, k)) == v
  {
    if k > 0 {
      TailsContinue(v, k - 1);
      HeadOfHead(v, k - 1);
      assert Tails(v, k)[1..] == Tails(v, k - 1);
    }
  }

  lemma {:induction false} OneSpelling(first: int, tails: seq<Byte>, v: nat)
    requires forall k :: 0 <= k < |tails| ==> Continues(tails[k])
    requires Collected(first, tails) == v
    ensures first == Head(v, |tails|) && tails == Tails(v, |tails|)
    decreases |tails|
  {
    if tails != [] {
      OneSpelling(first * 0x40 + (tails[0] as int - 0x80), tails[1..], v);
      HeadOfHead(v, |tails| - 1);
      assert tails == [tails[0]] + tails[1..];
    }
  }

  lemma MarksAre(v: nat)
    requires v < 0x8000_0000
    ensures var k := TailCount(v); k <= 5 && MARKS[k] == Mark(k) && LEAST[k] <= v < LEAST[k + 1]
    ensures forall k: nat :: k <= 5 && LEAST[k] <= v < LEAST[k + 1] ==> k == TailCount(v)
  {
  }

  /** A code point has one such form, and it is what `emit_utf8` writes. */
  lemma OneUtf8(r: seq<Byte>, v: nat)
    requires v < 0x8000_0000
    ensures IsUtf8(r, v) <==> r == Utf8(v)
  {
    MarksAre(v);
    var k := TailCount(v);
    TailsContinue(v, k);
    var u := Utf8(v);
    assert u[1..] == Tails(v, k) && forall j :: 1 <= j < |u| ==> u[j] == Tails(v, k)[j - 1];
    if IsUtf8(r, v) {
      assert forall j :: 0 <= j < |r| - 1 ==> r[1..][j] == r[j + 1];
      OneSpelling(r[0] - MARKS[|r| - 1], r[1..], v);
      assert r == [r[0]] + r[1..];
    }
  }

  // ---------- Letters and plain texts ----------

  const LETTERS: string := "abefnrtv"
  const CONTROLS: seq<Byte> := [7, 8, 27, 12, 10, 13, 9, 11]

  /** A letter of the table stands for its control character, any other byte without digits for itself. */
  lemma LetterEscape(t: seq<Byte>, i: nat)
    requires i + 1 < |t| && t[i] == 92 && !(48 <= t[i + 1] <= 55)
    requires forall k :: 0 <= k < 4 ==> t[i + 1] != "xXuU"[k] as int
    ensures forall k :: 0 <= k < 8 && t[i + 1] == LETTERS[k] as int ==>
      Meaning(t, i) == Then([CONTROLS[k]], Meaning(t, i + 2))
    ensures (forall k :: 0 <= k < 8 ==> t[i + 1] != LETTERS[k] as int) ==>
      Meaning(t, i) == Then([t[i + 1]], Meaning(t, i + 2))
  {
    hide Meaning;
    var c := t[i + 1];
    assert "xXuU"[0] == 'x' && "xXuU"[1] == 'X' && "xXuU"[2] == 'u' && "xXuU"[3] == 'U';
    assert c != "xXuU"[0] as int && c != "xXuU"[1] as int && c != "xXuU"[2] as int && c != "xXuU"[3] as int;
    ReadLetter(t, i, c);
    LettersMean(c);
  }

  lemma LettersMean(c: Byte)
    ensures forall k :: 0 <= k < 8 && c == LETTERS[k] as int ==> LetterByte(c) == CONTROLS[k]
    ensures (forall k :: 0 <= k < 8 ==> c != LETTERS[k] as int) ==> LetterByte(c) == c
  {
    assert LETTERS[0] == 'a' && LETTERS[1] == 'b' && LETTERS[2] == 'e' && LETTERS[3] == 'f';
    assert LETTERS[4] == 'n' && LETTERS[5] == 'r' && LETTERS[6] == 't' && LETTERS[7] == 'v';
  }

  predicate AllPrintable(s: seq<Byte>) {
    forall b :: b in s ==> 32 <= b <= 126
  }

  /** Which quotes a string gets: single ones if they will do, else double ones if they will, else backquotes. */
  lemma QuotesChosen(s: seq<Byte>)
    ensures AllPrintable(s) && 39 !in s ==> Quoted(s) == [39] + s + [39]
    ensures AllPrintable(s) && 39 in s && 34 !in s ==> Quoted(s) == [34] + s + [34]
    ensures !AllPrintable(s) || (39 in s && 34 in s) ==>
      |Quoted(s)| >= 2 && Quoted(s)[0] == 96 && Quoted(s)[|Quoted(s)| - 1] == 96
  {
    PlainMeans(s, 39);
    PlainMeans(s, 34);
  }

  lemma PlainMeans(s: seq<Byte>, q: Byte)
    ensures PlainIn(s, q) <==> AllPrintable(s) && q !in s
  {
    forall i | 0 <= i < |s|
      ensures s[i] in s
    {
    }
  }

  /** Between single or double quotes everything stands for itself, up to the next such quote. */
  lemma PlainText(s: seq<Byte>, q: Byte, rest: seq<Byte>)
    requires (q == 39 || q == 34) && q !in s
    ensures Unquoted([q] + s + [q] + rest) == Result(s, |s| + 1)
  {
    var t := [q] + s + [q] + rest;
    assert forall k :: 1 <= k <= |s| ==> t[k] == s[k - 1];
    PlainUpTo(t, q, 1, |s| + 1);
    assert t[1..|s| + 1] == s;
  }

  lemma {:induction false} PlainUpTo(t: seq<Byte>, q: Byte, i: nat, e: nat)
    requires i <= e < |t| && t[e] == q && forall k :: i <= k < e ==> t[k] != q
    ensures PlainEnd(t, q, i) == e
    decreases e - i
  {
    if i < e {
      PlainUpTo(t, q, i + 1, e);
    }
  }
}
