/**
 Moving a mantissa to the right (lib/cpp/floating.cpp, `ieee_shr`).
 */
module FloatShift {
  import opened Limbs
  import opened Powers

  // ---------- Division ----------

  /** Dividing twice is dividing by the product. */
  lemma DivideTwice(a: nat, b: nat, c: nat)
    requires b > 0 && c > 0
    ensures b * c > 0 && (a / b) / c == a / (b * c)
  {
    var q, r := a / b, a % b;
    var x, y := q / c, q % c;
    Distribute(x * c, y, b);
    Associate(x, c, b);
    Commute(c, b);
    Scale(y, c - 1, b);
    Distribute(c, -1, b);
    Scale(1, b, c);
    NotNegative(y, b);
    DivideBy(a, b * c, x, y * b + r);
  }

  lemma {:induction false} BPowIsPow2(n: nat)
    ensures BPow(n) == Pow2(32 * n)
  {
    if n > 0 {
      BPowIsPow2(n - 1);
      WordPowers();
      Pow2Adds(32, 32 * (n - 1));
    }
  }

  /** The two parts of a limb's 32 bits. */
  lemma TwoParts(sr: nat)
    requires sr <= 32
    ensures Pow2(sr) * Pow2(32 - sr) == BASE
  {
    Pow2Adds(sr, 32 - sr);
    WordPowers();
  }

  /** The low bits moved to the top of a limb; the others fall out. */
  lemma MovedUp(m: Limb, low: nat, high: nat)
    requires low > 0 && high > 0 && low * high == BASE
    ensures (m * high) % BASE == (m % low) * high
  {
    var q, r := m / low, m % low;
    assert m == q * low + r;
    Distribute(q * low, r, high);
    Associate(q, low, high);
    Scale(r + 1, low, high);
    Distribute(r, 1, high);
    NotNegative(r, high);
    DivideBy(m * high, BASE, q, r * high);
  }

  // ---------- One limb ----------

  /** Limb `x` of a number moved right by less than a limb; `low` is 2 to the number of bits, `high` the rest of the
      base. */
  function Part(m: seq<Limb>, x: nat, low: nat, high: nat): int
    requires x < |m| && low > 0
  {
    (if x > 0 then (m[x - 1] % low) * high else 0) + m[x] / low
  }

  lemma QuotientFits(x: Limb, low: nat, high: nat)
    requires low > 0 && high > 0 && low * high == BASE
    ensures 0 <= x / low < high
  {
    DividedIsSmaller(x, low);
    if x / low >= high {
      Scale(high, x / low, low);
      Commute(high, low);
    }
  }

  lemma RemainderFits(x: Limb, low: nat, high: nat)
    requires low > 0 && high > 0 && low * high == BASE
    ensures 0 <= (x % low) * high <= BASE - high
  {
    var r := x % low;
    Scale(r + 1, low, high);
    Distribute(r, 1, high);
    NotNegative(r, high);
  }

  lemma PartIsLimb(m: seq<Limb>, x: nat, low: nat, high: nat)
    requires x < |m| && low > 0 && high > 0 && low * high == BASE
    ensures 0 <= Part(m, x, low, high) < BASE
    ensures 0 <= m[x] / low < high
  {
    QuotientFits(m[x], low, high);
    if x > 0 {
      RemainderFits(m[x - 1], low, high);
    } else {
      Scale(1, low, high);
    }
  }

  /** The number read so far leaves the remainder of its last limb. */
  lemma LastRemainder(m: seq<Limb>, low: nat, high: nat)
    requires m != [] && low > 0 && high > 0 && low * high == BASE
    ensures Value(m) % low == m[|m| - 1] % low
  {
    var u, d := m[..|m| - 1], m[|m| - 1];
    assert Value(m) == Value(u) * BASE + d;
    hide Value;
    RemainderOf(Value(u), d, low, high);
  }

  lemma RemainderOf(v: nat, d: nat, low: nat, high: nat)
    requires low > 0 && high > 0 && low * high == BASE
    ensures (v * BASE + d) % low == d % low
  {
    Commute(low, high);
    Associate(v, high, low);
    var q, r := d / low, d % low;
    Distribute(v * high, q, low);
    assert d == q * low + r;
    DivideBy(v * BASE + d, low, v * high + q, r);
  }

  /** Moving limb by limb divides. */
  lemma {:induction false} PartsDivide(m: seq<Limb>, r: seq<nat>, k: nat, low: nat, high: nat)
    requires low > 0 && high > 0 && low * high == BASE && k <= |r| <= |m|
    requires forall x :: 0 <= x < |r| ==> r[x] == Part(m, x, low, high)
    ensures Value(r[..k]) == Value(m[..k]) / low
  {
    if k > 0 {
      PartsDivide(m, r, k - 1, low, high);
      var head, d := m[..k - 1], m[k - 1];
      assert m[..k] == head + [d] && r[..k] == r[..k - 1] + [r[k - 1]];
      ValueSnoc(head, d);
      ValueSnoc(r[..k - 1], r[k - 1]);
      var v := Value(head);
      if k > 1 {
        LastRemainder(head, low, high);
        assert head[|head| - 1] == m[k - 2];
      }
      assert k == 1 ==> v == 0;
      hide Value;
      OneLimb(v, d, v / low, v % low, low, high);
    }
  }

  lemma OneLimb(v: nat, d: Limb, q: nat, r: nat, low: nat, high: nat)
    requires low > 0 && high > 0 && low * high == BASE && q == v / low && r == v % low
    ensures (v * BASE + d) / low == q * BASE + (r * high + d / low)
  {
    Commute(low, high);
    Distribute(q * low, r, BASE);
    Associate(q, low, BASE);
    Commute(low, BASE);
    Associate(q, BASE, low);
    Associate(r, high, low);
    Distribute(q * BASE, r * high + d / low, low);
    Distribute(r * high, d / low, low);
    DivideBy(v * BASE + d, low, q * BASE + (r * high + d / low), d % low);
  }

  // ---------- The whole mantissa ----------

  /** What `ieee_shr` leaves at limb `k` after a move by `offs` limbs and less than one more. */
  function Moved(m: seq<Limb>, k: nat, offs: nat, low: nat, high: nat): int
    requires k < |m| && low > 0
  {
    if k < offs then 0 else Part(m, k - offs, low, high)
  }

  lemma MovedDivides(m: seq<Limb>, r: seq<nat>, offs: nat, low: nat, high: nat)
    requires |m| == |r| && offs <= |m| && low > 0 && high > 0 && low * high == BASE
    requires forall k :: 0 <= k < |r| ==> r[k] == Moved(m, k, offs, low, high)
    ensures BPow(offs) * low > 0 && Value(r) == Value(m) / (BPow(offs) * low)
  {
    hide Value, BPow, Part;
    var zeros, parts := r[..offs], r[offs..];
    assert r == zeros + parts;
    LeadingZeros(zeros, parts);
    forall x | 0 <= x < |parts|
      ensures parts[x] == Part(m, x, low, high)
    {
      assert parts[x] == r[offs + x];
    }
    PartsOfLead(m, parts, offs, low, high);
  }

  lemma LeadingZeros(zeros: seq<nat>, s: seq<nat>)
    requires forall k :: 0 <= k < |zeros| ==> zeros[k] == 0
    ensures Value(zeros + s) == Value(s)
  {
    ValueSplit(zeros, s);
    ZeroValue(zeros);
  }

  lemma PartsOfLead(m: seq<Limb>, parts: seq<nat>, offs: nat, low: nat, high: nat)
    requires offs <= |m| && |parts| == |m| - offs && low > 0 && high > 0 && low * high == BASE
    requires forall x :: 0 <= x < |parts| ==> parts[x] == Part(m, x, low, high)
    ensures BPow(offs) * low > 0 && Value(parts) == Value(m) / (BPow(offs) * low)
  {
    hide Value, BPow, Part;
    var kept := |m| - offs;
    PartsDivide(m, parts, kept, low, high);
    assert parts[..kept] == parts;
    LeadingLimbs(m, kept);
    DivideTwice(Value(m), BPow(offs), low);
  }

  /** The move by whole limbs. */
  method MoveLimbs(mant: array<Limb>, offs: nat) returns (j: int)
    requires mant.Length == LIMBS && 0 < offs
    modifies mant
    ensures j == if offs < LIMBS then offs - 1 else LIMBS - 1
    ensures forall k :: offs <= k < LIMBS ==> mant[k] == old(mant[k - offs])
  {
    j := LIMBS - 1;
    while j >= offs
      invariant offs - 1 <= j < LIMBS || j == LIMBS - 1 < offs
      invariant forall k :: j < k < LIMBS ==> mant[k] == old(mant[k - offs])
      invariant forall k :: 0 <= k <= j ==> mant[k] == old(mant[k])
    {
      mant[j] := mant[j - offs];
      j := j - 1;
    }
  }

  /** The move by `sr` bits more, 0 < sr < 32. A limb before the array is read as `stray`. */
  method MoveBits(mant: array<Limb>, offs: nat, low: nat, high: nat, stray: Limb) returns (j: int, inside: bool)
    requires mant.Length == LIMBS && low > 0 && high > 0 && low * high == BASE
    modifies mant
    ensures inside <==> offs < LIMBS
    ensures inside ==> j == offs - 1 && forall k :: offs <= k < LIMBS ==>
      mant[k] == Part(old(mant[..]), k - offs, low, high)
    ensures !inside ==> j == LIMBS - 2 && mant[LIMBS - 1] == stray / low
  {
    ghost var m := mant[..];
    var first := LIMBS - 1 - offs;
    inside := 0 <= first;
    QuotientFits(if inside then m[first] else stray, low, high);
    Scale(1, low, high);
    var n: Limb := (if inside then mant[first] else stray) / low;
    j := LIMBS - 1;
    while j > offs
      invariant offs <= j < LIMBS || j == LIMBS - 1 < offs
      invariant n == (if inside then m[j - offs] else stray) / low
      invariant forall k :: j < k < LIMBS ==> mant[k] == Part(m, k - offs, low, high)
      invariant forall k :: 0 <= k <= j ==> mant[k] == m[k]
    {
      var above := mant[j - offs - 1];
      MovedUp(above, low, high);
      PartIsLimb(m, j - offs, low, high);
      PartIsLimb(m, j - offs - 1, low, high);
      mant[j] := (above * high) % BASE + n;
      n := above / low;
      j := j - 1;
    }
    mant[j] := n;
    j := j - 1;
  }

  /** The limbs up to `j` are cleared. */
  method Clear(mant: array<Limb>, from: int)
    requires mant.Length == LIMBS && -1 <= from < LIMBS
    modifies mant
    ensures forall k :: 0 <= k < LIMBS ==> mant[k] == if k <= from then 0 else old(mant[k])
  {
    var j := from;
    while j >= 0
      invariant -1 <= j <= from
      invariant forall k :: 0 <= k < LIMBS ==> mant[k] == if j < k <= from then 0 else old(mant[k])
    {
      mant[j] := 0;
      j := j - 1;
    }
  }

  lemma WholeLimb(m: seq<Limb>, x: nat)
    requires x < |m|
    ensures Part(m, x, 1, BASE) == m[x]
  {
  }

  lemma SplitCount(i: nat)
    ensures Pow2(i) == BPow(i / 32) * Pow2(i % 32)
  {
    BPowIsPow2(i / 32);
    Pow2Adds(32 * (i / 32), i % 32);
  }

  lemma NothingLeft(m: seq<Limb>, i: nat)
    requires |m| == LIMBS && i >= 192
    ensures Value(m) / Pow2(i) == 0
  {
    ValueBound(m);
    BPowIsPow2(6);
    Pow2Grows(192, i);
    hide Pow2, Value, BPow;
    DivideBy(Value(m), Pow2(i), 0, Value(m));
  }

  lemma LastOnly(r: seq<Limb>)
    requires |r| == LIMBS && forall k :: 0 <= k < LIMBS - 1 ==> r[k] == 0
    ensures Value(r) == r[LIMBS - 1]
  {
    assert r == r[..LIMBS - 1] + [r[LIMBS - 1]];
    ValueSnoc(r[..LIMBS - 1], r[LIMBS - 1]);
    ZeroValue(r[..LIMBS - 1]);
  }

  /** `ieee_shr`: division by 2 to the number of bits; a move by no bits at all clears the first limb. A move by more
      than the whole mantissa that is not one by whole limbs reads a limb before the array, here `stray`, and leaves
      its bits. */
  method ShiftRight(mant: array<Limb>, i: nat, stray: Limb) returns (inside: bool)
    requires mant.Length == LIMBS
    modifies mant
    ensures inside <==> i < 192 || i % 32 == 0
    ensures inside && i > 0 ==> Value(mant[..]) == old(Value(mant[..])) / Pow2(i)
    ensures i == 0 ==> mant[..] == old(mant[..])[0 := 0]
    ensures !inside ==> Value(mant[..]) == stray / Pow2(i % 32)
  {
    ghost var m := mant[..];
    var sr, offs := i % 32, i / 32;
    TwoParts(sr);
    SplitCount(i);
    assert Pow2(0) == 1;
    hide Value, BPow, Pow2, Part;
    var low, high := Pow2(sr), Pow2(32 - sr);
    var j := 0;
    inside := true;
    if sr == 0 {
      if offs > 0 {
        j := MoveLimbs(mant, offs);
        forall k | offs <= k < LIMBS
          ensures mant[k] == Part(m, k - offs, low, high)
        {
          WholeLimb(m, k - offs);
        }
      }
    } else {
      j, inside := MoveBits(mant, offs, low, high, stray);
    }
    Clear(mant, j);
    if !inside {
      LastOnly(mant[..]);
    } else if offs >= LIMBS {
      NothingLeft(m, i);
      ZeroValue(mant[..]);
    } else if i > 0 {
      MovedDivides(m, mant[..], offs, low, high);
    }
  }
}
