/**
 Quoting and unquoting of strings (asm/aasm-quote.cpp): `aasm_quote`, `aasm_unquote` in place,
 `emit_utf8` and `aasm_skip_string`.

 The meaning of a quoted text is given piece by piece: an escape is the longest run of digits its letter allows.
 The methods are the source's state machines; they are proved against that meaning.
 */
module Quote {
  import opened Common

  const SINGLE: Byte := 39      // '
  const DOUBLE: Byte := 34      // "
  const BACK: Byte := 96        // `
  const SLASH: Byte := 92       // backslash
  const DIGIT0: Byte := 48

  predicate Printable(c: Byte) {
    32 <= c <= 126
  }

  predicate IsOctal(c: Byte) {
    48 <= c <= 55
  }

  predicate IsHex(c: Byte) {
    48 <= c <= 57 || 65 <= c <= 70 || 97 <= c <= 102
  }

  /** The digits of a base: 8 or 16. */
  predicate IsDigit(c: Byte, base: int) {
    if base == 8 then IsOctal(c) else IsHex(c)
  }

  /** numvalue */
  function DigitValue(c: Byte): int {
    if c >= 97 then c - 97 + 10 else if c >= 65 then c - 65 + 10 else c - 48
  }

  // ---------- Quoting ----------

  /** The letter of a two-character escape, or 0. */
  function EscapeLetter(c: Byte): Byte {
    if c == 7 then 97 /* a */ else if c == 8 then 98 /* b */ else if c == 9 then 116 /* t */
    else if c == 10 then 110 /* n */ else if c == 11 then 118 /* v */ else if c == 12 then 102 /* f */
    else if c == 13 then 114 /* r */ else if c == 27 then 101 /* e */
    else 0
  }

  /** The octal form of a byte: full when an octal digit follows, else as short as it goes. */
  function OctalForm(c: Byte, digitFollows: bool): seq<Byte> {
    if digitFollows || c > 63 then [SLASH, c / 64 + DIGIT0, (c / 8) % 8 + DIGIT0, c % 8 + DIGIT0]
    else if c > 7 then [SLASH, c / 8 + DIGIT0, c % 8 + DIGIT0]
    else [SLASH, c + DIGIT0]
  }

  /** One byte inside backquotes; `next` is the byte after it, or 0. */
  function Escape(c: Byte, next: Byte): (e: seq<Byte>)
    ensures 1 <= |e| <= 4
  {
    if c == BACK || c == SLASH then [SLASH, c]
    else if EscapeLetter(c) != 0 then [SLASH, EscapeLetter(c)]
    else if !Printable(c) then OctalForm(c, IsOctal(next))
    else [c]
  }

  function Following(s: seq<Byte>, i: nat): Byte {
    if i + 1 < |s| then s[i + 1] else 0
  }

  /** The texts of the bytes one by one. */
  function Pieces(s: seq<Byte>): seq<seq<Byte>> {
    seq(|s|, i requires 0 <= i < |s| => Escape(s[i], Following(s, i)))
  }

  /** The first `n` pieces as one text, and its length. */
  function Joined(ps: seq<seq<Byte>>, n: nat): seq<Byte>
    requires n <= |ps|
  {
    if n == 0 then [] else Joined(ps, n - 1) + ps[n - 1]
  }

  function Escaped(s: seq<Byte>): seq<Byte> {
    Joined(Pieces(s), |s|)
  }

  /** The string can stand between quotes `q` as it is. */
  predicate PlainIn(s: seq<Byte>, q: Byte) {
    forall i :: 0 <= i < |s| ==> Printable(s[i]) && s[i] != q
  }

  function Quoted(s: seq<Byte>): seq<Byte> {
    if PlainIn(s, SINGLE) then [SINGLE] + s + [SINGLE]
    else if PlainIn(s, DOUBLE) then [DOUBLE] + s + [DOUBLE]
    else [BACK] + Escaped(s) + [BACK]
  }

  // ---------- The meaning of a quoted text ----------

  /** A number without its last `k` groups of six bits. */
  function Head(v: nat, k: nat): nat {
    if k == 0 then v else Head(v / 64, k - 1)
  }

  /** Its last `k` groups of six bits, each as a continuation byte. */
  function Tails(v: nat, k: nat): (r: seq<Byte>)
    ensures |r| == k
  {
    if k == 0 then [] else [0x80 + Head(v, k - 1) % 64] + Tails(v, k - 1)
  }

  /** How many continuation bytes a code point takes. */
  function TailCount(v: int): nat {
    if v <= 0x7f then 0 else if v <= 0x7ff then 1 else if v <= 0xffff then 2
    else if v <= 0x1f_ffff then 3 else if v <= 0x3ff_ffff then 4 else 5
  }

  /** The mark of a first byte with `k` continuation bytes. */
  function Mark(k: nat): Byte
    requires k <= 5
  {
    if k == 0 then 0 else if k == 1 then 0xc0 else if k == 2 then 0xe0 else if k == 3 then 0xf0
    else if k == 4 then 0xf8 else 0xfc
  }

  /** The bytes of a code point; none for a negative one. */
  function Utf8(v: int): (r: seq<Byte>)
    requires v < 0x8000_0000
    ensures v < 0 ==> r == []
    ensures v >= 0 ==> |r| == 1 + TailCount(v)
  {
    if v < 0 then [] else HeadFits(v); [Mark(TailCount(v)) + Head(v, TailCount(v))] + Tails(v, TailCount(v))
  }

  lemma HeadFits(v: nat)
    requires v < 0x8000_0000
    ensures Mark(TailCount(v)) + Head(v, TailCount(v)) < 256
  {
    HeadIs(v);
  }

  /** The shifts of the source, 6 bits at a time. */
  lemma HeadIs(v: nat)
    ensures Head(v, 0) == v && Head(v, 1) == v / 64 && Head(v, 2) == v / 0x1000
    ensures Head(v, 3) == v / 0x4_0000 && Head(v, 4) == v / 0x100_0000 && Head(v, 5) == v / 0x4000_0000
  {
    assert Head(v, 1) == Head(v / 64, 0);
    assert Head(v, 2) == Head(v / 64, 1) == Head(v / 64 / 64, 0);
    assert Head(v, 3) == Head(v / 64, 2) == Head(v / 64 / 64, 1) == v / 64 / 64 / 64;
    assert Head(v, 4) == Head(v / 64, 3) == Head(v / 64 / 64, 2) == Head(v / 64 / 64 / 64, 1) == v / 64 / 64 / 64 / 64;
    assert Head(v, 5) == Head(v / 64, 4) == Head(v / 64 / 64, 3) == Head(v / 64 / 64 / 64, 2)
      == Head(v / 64 / 64 / 64 / 64, 1);
  }

  /** The code point that a first group and continuation bytes write. */
  function CodePoint(first: nat, tails: seq<Byte>): int
    decreases |tails|
  {
    if tails == [] then first else CodePoint(first * 64 + tails[0] % 64, tails[1..])
  }

  lemma {:induction false} HeadOfHead(v: nat, k: nat)
    ensures Head(v, k + 1) == Head(v, k) / 64
  {
    if k > 0 {
      HeadOfHead(v / 64, k - 1);
    }
  }

  lemma {:induction false} TailsWrite(v: nat, k: nat)
    ensures CodePoint(Head(v, k), Tails(v, k)) == v
  {
    if k > 0 {
      HeadOfHead(v, k - 1);
      TailsWrite(v, k - 1);
      assert Tails(v, k)[1..] == Tails(v, k - 1);
    }
  }

  /** The bytes of `emit_utf8` give the code point back. */
  lemma Utf8RoundTrip(v: nat)
    requires v < 0x8000_0000
    ensures var r := Utf8(v); 1 <= |r| <= 6 && r[0] >= Mark(|r| - 1) && CodePoint(r[0] - Mark(|r| - 1), r[1..]) == v
  {
    TailsWrite(v, TailCount(v));
    assert Utf8(v)[1..] == Tails(v, TailCount(v));
  }

  /** How many digits stand at `i`, at most `most`. */
  function DigitRun(t: seq<Byte>, i: nat, most: nat, base: int): (n: nat)
    requires i <= |t|
    ensures n <= most && i + n <= |t|
    decreases most
  {
    if most == 0 || i == |t| || !IsDigit(t[i], base) then 0 else 1 + DigitRun(t, i + 1, most - 1, base)
  }

  /** The number that `n` digits at `i` write. */
  function Number(t: seq<Byte>, i: nat, n: nat, base: int): int
    requires i + n <= |t|
  {
    if n == 0 then 0 else Number(t, i, n - 1, base) * base + DigitValue(t[i + n - 1])
  }

  /** Where the digits of an escape begin, how many it may have, and their base. */
  predicate IsNumeric(c: Byte) {
    IsOctal(c) || c == 120 /* x */ || c == 88 /* X */ || c == 117 /* u */ || c == 85 /* U */
  }

  function DigitsFrom(c: Byte, i: nat): nat {
    if IsOctal(c) then i + 1 else i + 2
  }

  function MostDigits(c: Byte): nat {
    if IsOctal(c) then 3 else if c == 117 /* u */ then 4 else if c == 85 /* U */ then 8 else 2
  }

  function Base(c: Byte): int {
    if IsOctal(c) then 8 else 16
  }

  /** The byte of a backslash and a letter that takes no digits. */
  function LetterByte(c: Byte): Byte {
    if c == 97 /* a */ then 7 else if c == 98 /* b */ then 8 else if c == 101 /* e */ then 27
    else if c == 102 /* f */ then 12 else if c == 110 /* n */ then 10 else if c == 114 /* r */ then 13
    else if c == 116 /* t */ then 9 else if c == 118 /* v */ then 11
    else c
  }

  /** What letter `c` with `n` digits of number `v` stands for. */
  function NumericBytes(c: Byte, n: nat, v: int): seq<Byte> {
    if n == 0 then [c]
    else if c == 117 /* u */ || c == 85 /* U */ then (if v < 0x8000_0000 then Utf8(v) else [])
    else [v % 256]
  }

  datatype Result = Result(out: seq<Byte>, end: nat)

  function Then(out: seq<Byte>, r: Result): Result {
    Result(out + r.out, r.end)
  }

  /** What the text from `i` on stands for, and where it ends: at a backquote, or where the text does. */
  function Meaning(t: seq<Byte>, i: nat): Result
    requires i <= |t|
    decreases |t| - i
  {
    if i == |t| || t[i] == BACK then Result([], i)
    else if t[i] != SLASH then Then([t[i]], Meaning(t, i + 1))
    else if i + 1 == |t| then Result([], |t|)
    else if !IsNumeric(t[i + 1]) then Then([LetterByte(t[i + 1])], Meaning(t, i + 2))
    else
      var c := t[i + 1];
      var from := DigitsFrom(c, i);
      var n := DigitRun(t, from, MostDigits(c), Base(c));
      if from + n <= i then Result([], i)
      else Then(NumericBytes(c, n, Number(t, from, n, Base(c))), Meaning(t, from + n))
  }

  /** Where a single- or double-quoted text ends. */
  function PlainEnd(t: seq<Byte>, q: Byte, i: nat): (e: nat)
    requires i <= |t|
    ensures i <= e <= |t|
    decreases |t| - i
  {
    if i == |t| || t[i] == q then i else PlainEnd(t, q, i + 1)
  }

  predicate IsQuote(c: Byte) {
    c == SINGLE || c == DOUBLE || c == BACK
  }

  /** What a whole string stands for: its bytes and its end. */
  function Unquoted(t: seq<Byte>): Result {
    if t == [] || !IsQuote(t[0]) then Result(t, |t|)
    else if t[0] == BACK then Meaning(t, 1)
    else var e := PlainEnd(t, t[0], 1); Result(t[1..e], e)
  }

  // ---------- Runs of digits ----------

  predicate AllDigits(t: seq<Byte>, i: nat, n: nat, base: int)
    requires i + n <= |t|
  {
    forall k :: i <= k < i + n ==> IsDigit(t[k], base)
  }

  /** A run is `n` digits long when these are digits and no further one is read. */
  lemma {:induction false} RunIs(t: seq<Byte>, i: nat, most: nat, base: int, n: nat)
    requires i + n <= |t| && n <= most
    requires AllDigits(t, i, n, base)
    requires n == most || i + n == |t| || !IsDigit(t[i + n], base)
    ensures DigitRun(t, i, most, base) == n
    decreases n
  {
    if n > 0 {
      RunIs(t, i + 1, most - 1, base, n - 1);
    }
  }

  lemma {:induction false} RunOfDigits(t: seq<Byte>, i: nat, most: nat, base: int)
    requires i <= |t|
    ensures AllDigits(t, i, DigitRun(t, i, most, base), base)
    decreases most
  {
    if !(most == 0 || i == |t| || !IsDigit(t[i], base)) {
      RunOfDigits(t, i + 1, most - 1, base);
    }
  }

  /** An escape with digits, once its run is over. */
  lemma NumericMeaning(t: seq<Byte>, i: nat, n: nat)
    requires i + 1 < |t| && t[i] == SLASH && IsNumeric(t[i + 1])
    requires var c := t[i + 1]; var from := DigitsFrom(c, i);
      && n <= MostDigits(c) && from + n <= |t| && AllDigits(t, from, n, Base(c))
      && (n == MostDigits(c) || from + n == |t| || !IsDigit(t[from + n], Base(c)))
    requires DigitsFrom(t[i + 1], i) + n > i
    ensures var c := t[i + 1]; var from := DigitsFrom(c, i);
      Meaning(t, i) == Then(NumericBytes(c, n, Number(t, from, n, Base(c))), Meaning(t, from + n))
  {
    var c := t[i + 1];
    RunIs(t, DigitsFrom(c, i), MostDigits(c), Base(c), n);
  }

  // ---------- Where a text ends ----------

  /** Where a backquoted text ends, seen by `aasm_skip_string`: a backslash hides the byte after it. */
  function SkipEnd(t: seq<Byte>, i: nat): (e: nat)
    requires i <= |t|
    ensures i <= e <= |t|
    decreases |t| - i
  {
    if i == |t| || t[i] == BACK then i
    else if t[i] == SLASH && i + 1 < |t| then SkipEnd(t, i + 2)
    else SkipEnd(t, i + 1)
  }

  lemma {:induction false} SkipOverDigits(t: seq<Byte>, i: nat, n: nat, base: int)
    requires i + n <= |t| && AllDigits(t, i, n, base)
    ensures SkipEnd(t, i) == SkipEnd(t, i + n)
    decreases n
  {
    if n > 0 {
      SkipOverDigits(t, i + 1, n - 1, base);
    }
  }

  /** Two states find the end that the full reader finds. */
  lemma {:induction false} SameEnd(t: seq<Byte>, i: nat)
    requires i <= |t|
    ensures Meaning(t, i).end == SkipEnd(t, i)
    decreases |t| - i
  {
    if i == |t| || t[i] == BACK || (t[i] == SLASH && i + 1 == |t|) {
    } else if t[i] != SLASH {
      SameEnd(t, i + 1);
    } else if !IsNumeric(t[i + 1]) {
      SameEnd(t, i + 2);
    } else {
      SameEndOfNumber(t, i);
    }
  }

  lemma {:induction false} SameEndOfNumber(t: seq<Byte>, i: nat)
    requires i + 1 < |t| && t[i] == SLASH && IsNumeric(t[i + 1])
    ensures Meaning(t, i).end == SkipEnd(t, i)
    decreases |t| - i, 0
  {
    hide NumericBytes, Number, LetterByte;
    var c := t[i + 1];
    var from := DigitsFrom(c, i);
    var n := DigitRun(t, from, MostDigits(c), Base(c));
    RunOfDigits(t, from, MostDigits(c), Base(c));
    if from == i + 1 {
      assert n > 0;
      SkipOverDigits(t, i + 2, n - 1, 8);
    } else {
      SkipOverDigits(t, i + 2, n, Base(c));
    }
    SameEnd(t, from + n);
  }

  // ---------- The round trip ----------

  ghost predicate StandsAt(e: seq<Byte>, t: seq<Byte>, i: nat) {
    i + |e| <= |t| && forall k {:trigger e[k]} :: 0 <= k < |e| ==> t[i + k] == e[k]
  }

  /** An octal escape of `n` digits that is over reads back as the byte they write. */
  lemma ReadOctal(t: seq<Byte>, i: nat, c: Byte, n: nat)
    requires 1 <= n <= 3 && i + n + 1 < |t| && t[i] == SLASH
    requires AllDigits(t, i + 1, n, 8) && Number(t, i + 1, n, 8) == c
    requires n == 3 || !IsOctal(t[i + n + 1])
    ensures Meaning(t, i) == Then([c], Meaning(t, i + n + 1))
  {
    assert IsDigit(t[i + 1], 8);
    NumericMeaning(t, i, n);
  }

  lemma OneDigit(t: seq<Byte>, i: nat, v: int)
    requires i < |t| && 0 <= v <= 7 && t[i] == v + DIGIT0
    ensures AllDigits(t, i, 1, 8) && Number(t, i, 1, 8) == v
  {
    assert Number(t, i, 0, 8) == 0;
  }

  lemma OneMoreDigit(t: seq<Byte>, i: nat, n: nat, v: int, d: int)
    requires i + n < |t| && AllDigits(t, i, n, 8) && Number(t, i, n, 8) == v && 0 <= d <= 7 && t[i + n] == d + DIGIT0
    ensures AllDigits(t, i, n + 1, 8) && Number(t, i, n + 1, 8) == v * 8 + d
  {
  }

  /** The three octal forms all read back as the byte. */
  lemma ReadOctalForm(t: seq<Byte>, i: nat, c: Byte, digitFollows: bool)
    requires StandsAt(OctalForm(c, digitFollows), t, i)
    requires var j := i + |OctalForm(c, digitFollows)|; j < |t| && (IsOctal(t[j]) ==> digitFollows)
    ensures Meaning(t, i) == Then([c], Meaning(t, i + |OctalForm(c, digitFollows)|))
  {
    hide Meaning, Then;
    var e := OctalForm(c, digitFollows);
    assert t[i + 0] == e[0] && t[i + 1] == e[1];
    if digitFollows || c > 63 {
      assert t[i + 2] == e[2] && t[i + 3] == e[3];
      ReadThree(t, i, c, c / 64, (c / 8) % 8, c % 8);
    } else if c > 7 {
      assert t[i + 2] == e[2];
      ReadTwo(t, i, c, c / 8, c % 8);
    } else {
      ReadOne(t, i, c);
    }
  }

  lemma ReadOne(t: seq<Byte>, i: nat, c: Byte)
    requires 0 <= c <= 7 && i + 2 < |t| && t[i] == SLASH && t[i + 1] == c + DIGIT0 && !IsOctal(t[i + 2])
    ensures Meaning(t, i) == Then([c], Meaning(t, i + 2))
  {
    OneDigit(t, i + 1, c);
    ReadOctal(t, i, c, 1);
  }

  lemma ReadTwo(t: seq<Byte>, i: nat, c: Byte, y: int, z: int)
    requires c == y * 8 + z && 0 <= y <= 7 && 0 <= z <= 7
    requires i + 3 < |t| && t[i] == SLASH && t[i + 1] == y + DIGIT0 && t[i + 2] == z + DIGIT0 && !IsOctal(t[i + 3])
    ensures Meaning(t, i) == Then([c], Meaning(t, i + 3))
  {
    OneDigit(t, i + 1, y);
    OneMoreDigit(t, i + 1, 1, y, z);
    ReadOctal(t, i, c, 2);
  }

  lemma ReadThree(t: seq<Byte>, i: nat, c: Byte, x: int, y: int, z: int)
    requires c == (x * 8 + y) * 8 + z && 0 <= x <= 3 && 0 <= y <= 7 && 0 <= z <= 7
    requires i + 4 < |t| && t[i] == SLASH && t[i + 1] == x + DIGIT0 && t[i + 2] == y + DIGIT0 && t[i + 3] == z + DIGIT0
    ensures Meaning(t, i) == Then([c], Meaning(t, i + 4))
  {
    OneDigit(t, i + 1, x);
    OneMoreDigit(t, i + 1, 1, x, y);
    OneMoreDigit(t, i + 1, 2, x * 8 + y, z);
    ReadOctal(t, i, c, 3);
  }

  lemma ReadLetter(t: seq<Byte>, i: nat, x: Byte)
    requires i + 1 < |t| && t[i] == SLASH && t[i + 1] == x && !IsNumeric(x)
    ensures Meaning(t, i) == Then([LetterByte(x)], Meaning(t, i + 2))
  {
  }

  lemma ReadEscape(t: seq<Byte>, i: nat, c: Byte, next: Byte)
    requires StandsAt(Escape(c, next), t, i)
    requires var j := i + |Escape(c, next)|; j < |t| && (IsOctal(t[j]) ==> IsOctal(next))
    ensures Meaning(t, i) == Then([c], Meaning(t, i + |Escape(c, next)|))
  {
    var e := Escape(c, next);
    assert t[i + 0] == e[0];
    if c == BACK || c == SLASH || EscapeLetter(c) != 0 {
      assert t[i + 1] == e[1];
      ReadLetter(t, i, e[1]);
    } else if !Printable(c) {
      ReadOctalForm(t, i, c, IsOctal(next));
    }
  }

  /** Where piece `n` begins, after the opening quote. */
  function At(ps: seq<seq<Byte>>, n: nat): (i: nat)
    requires n <= |ps|
    ensures i >= 1
  {
    if n == 0 then 1 else At(ps, n - 1) + |ps[n - 1]|
  }

  lemma {:induction false} JoinedLength(ps: seq<seq<Byte>>, n: nat)
    requires n <= |ps|
    ensures 1 + |Joined(ps, n)| == At(ps, n)
  {
    if n > 0 {
      JoinedLength(ps, n - 1);
    }
  }

  lemma {:induction false} JoinedGrows(ps: seq<seq<Byte>>, m: nat, n: nat)
    requires m <= n <= |ps|
    ensures Joined(ps, m) <= Joined(ps, n)
    decreases n
  {
    if m < n {
      JoinedGrows(ps, m, n - 1);
    }
  }

  /** Every piece stands in the text at its place, and the closing quote after the last. */
  ghost predicate Spelt(ps: seq<seq<Byte>>, t: seq<Byte>) {
    && (forall n :: 0 <= n < |ps| ==> StandsAt(ps[n], t, At(ps, n)))
    && At(ps, |ps|) + 1 == |t| && t[At(ps, |ps|)] == BACK
  }

  lemma {:induction false} PieceStands(ps: seq<seq<Byte>>, n: nat, m: nat)
    requires n < m <= |ps|
    ensures StandsAt(ps[n], Joined(ps, m), |Joined(ps, n)|)
    decreases m
  {
    var all := Joined(ps, m - 1) + ps[m - 1];
    assert all == Joined(ps, m);
    if n < m - 1 {
      PieceStands(ps, n, m - 1);
    }
  }

  lemma BetweenQuotes(e: seq<Byte>, all: seq<Byte>, i: nat)
    requires StandsAt(e, all, i)
    ensures StandsAt(e, [BACK] + all + [BACK], 1 + i)
  {
    var t := [BACK] + all + [BACK];
    forall k | 0 <= k < |e|
      ensures t[1 + i + k] == e[k]
    {
      assert t[1 + (i + k)] == all[i + k];
    }
  }

  lemma QuotedIsSpelt(ps: seq<seq<Byte>>, t: seq<Byte>)
    requires t == [BACK] + Joined(ps, |ps|) + [BACK]
    ensures Spelt(ps, t)
  {
    JoinedLength(ps, |ps|);
    forall n | 0 <= n < |ps|
      ensures StandsAt(ps[n], t, At(ps, n))
    {
      PieceStands(ps, n, |ps|);
      JoinedLength(ps, n);
      BetweenQuotes(ps[n], Joined(ps, |ps|), |Joined(ps, n)|);
    }
  }

  /** An escape begins with an octal digit only if it is the digit. */
  lemma EscapeFirst(c: Byte, next: Byte)
    ensures IsOctal(Escape(c, next)[0]) ==> IsOctal(c)
  {
  }

  /** After a piece stands the next one, or the closing quote. */
  lemma Place(ps: seq<seq<Byte>>, n: nat, t: seq<Byte>)
    requires n < |ps| && Spelt(ps, t) && (n + 1 < |ps| ==> ps[n + 1] != [])
    ensures StandsAt(ps[n], t, At(ps, n)) && At(ps, n + 1) == At(ps, n) + |ps[n]| < |t|
    ensures t[At(ps, n + 1)] == if n + 1 < |ps| then ps[n + 1][0] else BACK
  {
    if n + 1 < |ps| {
      assert StandsAt(ps[n + 1], t, At(ps, n + 1));
      assert t[At(ps, n + 1) + 0] == ps[n + 1][0];
    }
  }

  /** Results that each add one byte add up to all the bytes. */
  lemma {:induction false} AddUp(s: seq<Byte>, rs: seq<Result>, n: nat, end: nat)
    requires n <= |s| && |rs| == |s| + 1 && rs[|s|] == Result([], end)
    requires forall i :: 0 <= i < |s| ==> rs[i] == Then([s[i]], rs[i + 1])
    ensures rs[n] == Result(s[n..], end)
    decreases |s| - n
  {
    if n < |s| {
      AddUp(s, rs, n + 1, end);
      assert s[n..] == [s[n]] + s[n + 1..];
    }
  }

  /** The first `n` pieces are the escapes of the first `n` bytes. */
  ghost predicate Agree(ps: seq<seq<Byte>>, s: seq<Byte>, n: nat)
    requires n <= |s| == |ps|
  {
    n == 0 || (Agree(ps, s, n - 1) && ps[n - 1] == Escape(s[n - 1], Following(s, n - 1)))
  }

  lemma {:induction false} PiecesAgree(s: seq<Byte>, n: nat)
    requires n <= |s|
    ensures Agree(Pieces(s), s, n)
  {
    if n > 0 {
      PiecesAgree(s, n - 1);
    }
  }

  lemma {:induction false} PieceAt(ps: seq<seq<Byte>>, s: seq<Byte>, n: nat, i: nat)
    requires i < n <= |s| == |ps| && Agree(ps, s, n)
    ensures ps[i] == Escape(s[i], Following(s, i))
  {
    if i < n - 1 {
      PieceAt(ps, s, n - 1, i);
    }
  }

  lemma NextPiece(ps: seq<seq<Byte>>, s: seq<Byte>, n: nat)
    requires n + 1 < |s| == |ps| && Agree(ps, s, |s|)
    ensures ps[n + 1] != [] && (IsOctal(ps[n + 1][0]) ==> IsOctal(s[n + 1]))
  {
    PieceAt(ps, s, |s|, n + 1);
    EscapeFirst(s[n + 1], Following(s, n + 1));
  }

  ghost function MeaningAt(t: seq<Byte>, i: nat): Result {
    if i <= |t| then Meaning(t, i) else Result([], i)
  }

  lemma OneReading(s: seq<Byte>, ps: seq<seq<Byte>>, t: seq<Byte>, n: nat, i: nat, j: nat)
    requires n < |s| == |ps| && Agree(ps, s, |s|) && StandsAt(ps[n], t, i) && j == i + |ps[n]| < |t|
    requires if n + 1 < |s| then ps[n + 1] != [] && t[j] == ps[n + 1][0] else t[j] == BACK
    ensures MeaningAt(t, i) == Then([s[n]], MeaningAt(t, j))
  {
    hide Escape, Meaning, Agree, StandsAt;
    if n + 1 < |s| {
      NextPiece(ps, s, n);
    }
    PieceAt(ps, s, |s|, n);
    ReadEscape(t, i, s[n], Following(s, n));
  }

  lemma Readings(s: seq<Byte>, ps: seq<seq<Byte>>, t: seq<Byte>) returns (rs: seq<Result>)
    requires |ps| == |s| && Agree(ps, s, |s|) && Spelt(ps, t)
    ensures |rs| == |s| + 1 && rs[0] == MeaningAt(t, 1) && rs[|s|] == MeaningAt(t, |t| - 1)
    ensures forall n :: 0 <= n < |s| ==> rs[n] == Then([s[n]], rs[n + 1])
  {
    rs := seq(|s| + 1, n requires 0 <= n <= |s| => MeaningAt(t, At(ps, n)));
    forall n | 0 <= n < |s|
      ensures rs[n] == Then([s[n]], rs[n + 1])
    {
      if n + 1 < |s| {
        NextPiece(ps, s, n);
      }
      Place(ps, n, t);
      OneReading(s, ps, t, n, At(ps, n), At(ps, n + 1));
    }
  }

  /** The text of an escaped string stands for it, up to the closing quote. */
  lemma ReadEscaped(s: seq<Byte>, t: seq<Byte>)
    requires Spelt(Pieces(s), t) && t != []
    ensures Meaning(t, 1) == Result(s, |t| - 1)
  {
    PiecesAgree(s, |s|);
    var rs := Readings(s, Pieces(s), t);
    AddUp(s, rs, 0, |t| - 1);
    assert s[0..] == s;
  }

  lemma {:induction false} PlainStands(s: seq<Byte>, q: Byte, t: seq<Byte>, i: nat)
    requires PlainIn(s, q) && t == [q] + s + [q] && 1 <= i < |t|
    ensures PlainEnd(t, q, i) == |t| - 1
    decreases |t| - i
  {
    if i < |t| - 1 {
      assert t[i] == s[i - 1];
      PlainStands(s, q, t, i + 1);
    }
  }

  /** Unquoting a quoted string gives the string back, whatever its bytes, and ends at the closing quote. */
  lemma UnquotedQuoted(s: seq<Byte>)
    ensures Unquoted(Quoted(s)) == Result(s, |Quoted(s)| - 1)
  {
    var t := Quoted(s);
    if PlainIn(s, SINGLE) {
      PlainStands(s, SINGLE, t, 1);
      assert t[1..|t| - 1] == s;
    } else if PlainIn(s, DOUBLE) {
      PlainStands(s, DOUBLE, t, 1);
      assert t[1..|t| - 1] == s;
    } else {
      QuotedIsSpelt(Pieces(s), t);
      ReadEscaped(s, t);
    }
  }

  lemma NoNulInEscape(c: Byte, next: Byte)
    ensures 0 !in Escape(c, next)
  {
  }

  lemma {:induction false} NoNulEscaped(s: seq<Byte>, n: nat)
    requires n <= |s|
    ensures 0 !in Joined(Pieces(s), n)
  {
    if n > 0 {
      NoNulEscaped(s, n - 1);
      NoNulInEscape(s[n - 1], Following(s, n - 1));
    }
  }

  /** A quoted string holds no NUL, even where the string does. */
  lemma NoNul(s: seq<Byte>)
    ensures 0 !in Quoted(s)
  {
    NoNulEscaped(s, |s|);
    if PlainIn(s, SINGLE) || PlainIn(s, DOUBLE) {
      assert 0 !in s;
    }
  }

  // ---------- aasm_quote ----------

  /** What the first pass counts for one byte. */
  method Count(s: seq<Byte>, p: nat, ghost ps: seq<seq<Byte>>) returns (n: nat)
    requires p < |s| == |ps| && Agree(ps, s, |s|)
    ensures n == |ps[p]|
  {
    PieceAt(ps, s, |s|, p);
    var c, c1 := s[p], if p + 1 < |s| then s[p + 1] else 0;
    if c == BACK || c == SLASH {
      return 2;
    } else if c < 32 || c > 126 {
      if (7 <= c <= 13) || c == 27 {
        return 2;
      }
      var uc := if 48 <= c1 <= 55 then 255 else c;
      n := 0;
      if uc > 63 { n := n + 1; }
      if uc > 7 { n := n + 1; }
      n := n + 2;
    } else {
      return 1;
    }
  }

  /** The first pass: which quotes will do, and the length inside backquotes. */
  method Measure(s: seq<Byte>, ghost ps: seq<seq<Byte>>) returns (sqOk: bool, dqOk: bool, qlen: nat)
    requires |ps| == |s| && Agree(ps, s, |s|)
    ensures sqOk == PlainIn(s, SINGLE) && dqOk == PlainIn(s, DOUBLE)
    ensures qlen == |Joined(ps, |s|)|
  {
    sqOk, dqOk, qlen := true, true, 0;
    var p := 0;
    while p < |s|
      invariant p <= |s|
      invariant sqOk == PlainIn(s[..p], SINGLE) && dqOk == PlainIn(s[..p], DOUBLE)
      invariant qlen == |Joined(ps, p)|
    {
      var c := s[p];
      assert s[..p + 1] == s[..p] + [c];
      PlainSnoc(s[..p], c, SINGLE);
      PlainSnoc(s[..p], c, DOUBLE);
      if c == SINGLE {
        sqOk := false;
      } else if c == DOUBLE {
        dqOk := false;
      } else if c < 32 || c > 126 {
        sqOk, dqOk := false, false;
      }
      var n := Count(s, p, ps);
      qlen := qlen + n;
      p := p + 1;
    }
    assert s[..p] == s;
  }

  lemma PlainSnoc(s: seq<Byte>, c: Byte, q: Byte)
    ensures PlainIn(s + [c], q) <==> PlainIn(s, q) && Printable(c) && c != q
  {
    var u := s + [c];
    assert u[|s|] == c;
    assert forall i :: 0 <= i < |s| ==> u[i] == s[i];
  }

  /** One byte of the second pass. */
  method WriteEscape(nstr: array<Byte>, q0: nat, s: seq<Byte>, p: nat, ghost ps: seq<seq<Byte>>) returns (q: nat)
    requires p < |s| == |ps| && Agree(ps, s, |s|) && q0 + |ps[p]| <= nstr.Length
    modifies nstr
    ensures q == q0 + |ps[p]|
    ensures nstr[..q] == old(nstr[..q0]) + ps[p]
  {
    PieceAt(ps, s, |s|, p);
    var c, c1 := s[p], if p + 1 < |s| then s[p + 1] else 0;
    q := q0;
    if c == BACK || c == SLASH {
      nstr[q], nstr[q + 1] := SLASH, c;
      q := q + 2;
    } else if EscapeLetter(c) != 0 {
      nstr[q], nstr[q + 1] := SLASH, EscapeLetter(c);
      q := q + 2;
    } else if c < 32 || c > 126 {
      q := WriteOctal(nstr, q, c, c1);
    } else {
      nstr[q] := c;
      q := q + 1;
    }
  }

  method WriteOctal(nstr: array<Byte>, q0: nat, c: Byte, c1: Byte) returns (q: nat)
    requires q0 + |OctalForm(c, IsOctal(c1))| <= nstr.Length
    modifies nstr
    ensures q == q0 + |OctalForm(c, IsOctal(c1))|
    ensures nstr[..q] == old(nstr[..q0]) + OctalForm(c, IsOctal(c1))
  {
    var uc := if 48 <= c1 <= 55 then 255 else c;
    q := q0;
    nstr[q] := SLASH;
    q := q + 1;
    if uc > 63 {
      nstr[q] := c / 64 + DIGIT0;
      q := q + 1;
    }
    if uc > 7 {
      nstr[q] := (c / 8) % 8 + DIGIT0;
      q := q + 1;
    }
    nstr[q] := c % 8 + DIGIT0;
    q := q + 1;
  }

  /** One turn of the second pass. */
  method WriteNext(nstr: array<Byte>, q0: nat, s: seq<Byte>, p: nat, ghost ps: seq<seq<Byte>>, ghost done: seq<Byte>)
    returns (q: nat)
    requires p < |s| == |ps| && Agree(ps, s, |s|) && q0 + |ps[p]| <= nstr.Length && nstr[..q0] == [BACK] + done
    modifies nstr
    ensures q == q0 + |ps[p]|
    ensures nstr[..q] == [BACK] + (done + ps[p])
  {
    q := WriteEscape(nstr, q0, s, p, ps);
    assert [BACK] + done + ps[p] == [BACK] + (done + ps[p]);
  }

  /** The second pass. */
  method WriteEscaped(nstr: array<Byte>, s: seq<Byte>, ghost ps: seq<seq<Byte>>, ghost all: seq<Byte>) returns (q: nat)
    requires |ps| == |s| && Agree(ps, s, |s|) && all == Joined(ps, |s|)
    requires nstr.Length == |all| + 3 && nstr[0] == BACK
    modifies nstr
    ensures q == 1 + |all|
    ensures nstr[..q] == [BACK] + all
  {
    var p := 0;
    q := 1;
    while p < |s|
      invariant p <= |s| && q == 1 + |Joined(ps, p)| && q + 2 <= nstr.Length
      invariant nstr[..q] == [BACK] + Joined(ps, p)
    {
      JoinedGrows(ps, p + 1, |s|);
      q := WriteNext(nstr, q, s, p, ps, Joined(ps, p));
      p := p + 1;
    }
  }

  method WritePlain(s: seq<Byte>, mark: Byte) returns (nstr: array<Byte>)
    ensures fresh(nstr)
    ensures nstr[..] == [mark] + s + [mark] + [0]
  {
    nstr := new Byte[|s| + 3](i => 0);
    nstr[0], nstr[|s| + 1] := mark, mark;
    nstr[|s| + 2] := 0;
    forall i | 0 <= i < |s| {
      nstr[i + 1] := s[i];
    }
  }

  method WriteBack(s: seq<Byte>, qlen: nat, ghost ps: seq<seq<Byte>>, ghost all: seq<Byte>) returns (nstr: array<Byte>)
    requires |ps| == |s| && Agree(ps, s, |s|) && all == Joined(ps, |s|) && qlen == |all|
    ensures fresh(nstr)
    ensures nstr[..] == [BACK] + all + [BACK] + [0]
  {
    nstr := new Byte[qlen + 3](i => 0);
    nstr[0] := BACK;
    var q := WriteEscaped(nstr, s, ps, all);
    nstr[q] := BACK;
    nstr[q + 1] := 0;
    assert q + 2 == qlen + 3;
  }

  /** `aasm_quote`: the block it measured is filled exactly, and it holds the quoted string and a NUL. */
  method Quote(s: seq<Byte>) returns (nstr: array<Byte>)
    ensures fresh(nstr)
    ensures nstr[..] == Quoted(s) + [0]
  {
    PiecesAgree(s, |s|);
    var sqOk, dqOk, qlen := Measure(s, Pieces(s));
    if sqOk || dqOk {
      nstr := WritePlain(s, if sqOk then SINGLE else DOUBLE);
    } else {
      nstr := WriteBack(s, qlen, Pieces(s), Escaped(s));
    }
  }
}
