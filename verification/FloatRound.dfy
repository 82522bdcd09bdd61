/**
 Rounding a mantissa to its first bits, to nearest with ties to even (lib/cpp/floating.cpp, `ieee_round` under
 FLOAT_RC_NEAR), as section 4.3.1 of IEEE 754-2019 defines it.
 */
module FloatRound {
  import opened Common
  import opened Limbs
  import opened Powers
  import FloatShift

  // ---------- Round half to even ----------

  /** The multiple of `unit` that `v` rounds to. */
  function Nearest(v: int, unit: nat): int
    requires unit > 0
  {
    var k, r := v / unit, v % unit;
    if 2 * r > unit || (2 * r == unit && k % 2 == 1) then k + 1 else k
  }

  /** It is the one multiple at most half a unit away, and even if exactly half. */
  lemma NearestMeans(v: nat, unit: nat, n: nat)
    requires unit > 0
    ensures n == Nearest(v, unit) <==>
      2 * Distance(v, n * unit) < unit || (2 * Distance(v, n * unit) == unit && n % 2 == 0)
  {
    var k, r := v / unit, v % unit;
    assert v == k * unit + r;
    if n <= k - 1 {
      Scale(n, k - 1, unit);
      Distribute(k, -1, unit);
      Compare(v, unit, n, n * unit, k, k * unit, r);
    } else if n >= k + 2 {
      Scale(k + 2, n, unit);
      Distribute(k, 2, unit);
      Compare(v, unit, n, n * unit, k, k * unit, r);
    } else {
      Distribute(k, 1, unit);
      Compare(v, unit, n, n * unit, k, k * unit, r);
    }
  }

  lemma Compare(v: nat, unit: nat, n: nat, nu: int, k: nat, ku: int, r: nat)
    requires v == ku + r && r < unit
    requires (n < k && nu <= ku - unit) || (n == k && nu == ku) || (n == k + 1 && nu == ku + unit)
      || (n >= k + 2 && nu >= ku + 2 * unit)
    ensures (n == if 2 * r > unit || (2 * r == unit && k % 2 == 1) then k + 1 else k) <==>
      2 * Distance(v, nu) < unit || (2 * Distance(v, nu) == unit && n % 2 == 0)
  {
  }

  // ---------- A mantissa cut at one limb ----------

  /** The number before limb `i`, limb `i`, and the number after it. */
  lemma Around(m: seq<Limb>, i: nat)
    requires |m| == LIMBS && i < LIMBS
    ensures Value(m) == (Value(m[..i]) * BASE + m[i]) * BPow(5 - i) + Value(m[i + 1..])
    ensures Value(m[i + 1..]) < BPow(5 - i) && Value(m[..i]) < BPow(i)
  {
    hide Value, BPow;
    LeadingLimbs(m, i + 1);
    assert m[..i + 1] == m[..i] + [m[i]];
    ValueSnoc(m[..i], m[i]);
    ValueBound(m[..i]);
  }

  /** What is kept and what is cut off, in units of the last kept bit. */
  lemma KeptAndCut(h: nat, x: Limb, l: nat, w: nat, p2: nat, two: nat)
    requires p2 > 0 && two > 0 && p2 * two == BASE && l < w
    ensures two * w > 0
    ensures ((h * BASE + x) * w + l) / (two * w) == h * p2 + x / two
    ensures ((h * BASE + x) * w + l) % (two * w) == (x % two) * w + l
  {
    var y, z := x / two, x % two;
    var k := h * p2 + y;
    Associate(h, p2, two);
    Distribute(h * p2, y, two);
    assert h * BASE + x == k * two + z;
    Distribute(k * two, z, w);
    Associate(k, two, w);
    Scale(z + 1, two, w);
    Distribute(z, 1, w);
    NotNegative(z, w);
    Scale(1, two, w);
    DivideBy((h * BASE + x) * w + l, two * w, k, z * w + l);
  }

  /** The bits above the guard bit, the guard bit and those below it. */
  lemma GuardParts(x: Limb, bit: nat, two: nat) returns (y: nat, g: nat, s: nat)
    requires bit > 0 && two == 2 * bit
    ensures g <= 1 && s < bit && x / two == y && x % two == g * bit + s
    ensures x / bit == 2 * y + g && x % bit == s && (2 * y + g) * bit == y * two + g * bit
  {
    DividedIsSmaller(x, two);
    var z := x % two;
    y := x / two;
    g, s := OneBitMore(z, bit);
    TwiceBits(y, g, bit);
    DivideBy(x, bit, 2 * y + g, s);
  }

  lemma OneBitMore(z: nat, bit: nat) returns (g: nat, s: nat)
    requires z < 2 * bit
    ensures g <= 1 && s < bit && z == g * bit + s
  {
    g := if z >= bit then 1 else 0;
    s := if z >= bit then z - bit else z;
  }

  lemma TwiceBits(y: nat, g: nat, bit: nat)
    ensures (2 * y + g) * bit == y * (2 * bit) + g * bit
  {
    Distribute(2 * y, g, bit);
    Commute(2, y);
    Associate(y, 2, bit);
  }

  lemma GuardCompared(g: nat, s: nat, l: nat, w: nat, bit: nat, two: nat)
    requires g <= 1 && s < bit && l < w && two == 2 * bit
    ensures g == 1 <==> 2 * ((g * bit + s) * w + l) >= two * w
    ensures g == 1 ==> (s == 0 && l == 0 <==> 2 * ((g * bit + s) * w + l) == two * w)
  {
    Associate(2, bit, w);
    Distribute(bit, s, w);
    Scale(s + 1, bit, w);
    Distribute(s, 1, w);
    NotNegative(s, w);
    if s > 0 {
      Scale(1, s, w);
    }
    assert g * bit + s == if g == 1 then bit + s else s;
  }

  /** The guard bit and the bits after it tell which half the cut-off part is in. */
  lemma GuardTells(x: Limb, l: nat, w: nat, bit: nat, two: nat)
    requires bit > 0 && two == 2 * bit && l < w
    ensures (x / bit) % 2 == 1 <==> 2 * ((x % two) * w + l) >= two * w
    ensures (x / bit) % 2 == 1 ==> ((x % bit) == 0 && l == 0 <==> 2 * ((x % two) * w + l) == two * w)
    ensures (x / bit) % 2 == 1 ==> x / bit * bit == x / two * two + bit
  {
    var y, g, s := GuardParts(x, bit, two);
    GuardCompared(g, s, l, w, bit, two);
  }

  /** The head and limb `i` after a one was added at the last kept bit, with the carry into the head. */
  lemma RoundedUp(h: nat, y: nat, h2: nat, x2: nat, p2: nat, two: nat, w: nat, top: nat)
    requires p2 > 0 && two > 0 && p2 * two == BASE && w > 0 && h < top && y < p2
    requires x2 == ((y + 1) * two) % BASE && h2 == if x2 == 0 then (h + 1) % top else h
    ensures top * BASE * w > 0
    ensures (h2 * BASE + x2) * w == ((h * p2 + y + 1) * (two * w)) % (top * BASE * w)
  {
    var k := h * p2 + y + 1;
    Associate(h, p2, two);
    Distribute(h * p2, y + 1, two);
    assert k * two == h * BASE + (y + 1) * two;
    Scale(y + 1, p2, two);
    Associate(k, two, w);
    Scale(1, top * BASE, w);
    var n := (y + 1) * two;
    Scale(1, y + 1, two);
    if n < BASE {
      DivideBy(n, BASE, 0, n);
      Scale(k * two, top * BASE - 1, w);
      Distribute(top * BASE, -1, w);
      NotNegative(k * two, w);
      DivideBy(k * two * w, top * BASE * w, 0, k * two * w);
    } else {
      DivideBy(n, BASE, 1, 0);
      Carried(h, h2, k * two, w, top);
    }
  }

  lemma Carried(h: nat, h2: nat, n: nat, w: nat, top: nat)
    requires w > 0 && h < top && h2 == (h + 1) % top && n == (h + 1) * BASE
    ensures top * BASE * w > 0 && (h2 * BASE) * w == (n * w) % (top * BASE * w)
  {
    Scale(1, top * BASE, w);
    if h + 1 == top {
      DivideBy(h + 1, top, 1, 0);
      DivideBy(n * w, top * BASE * w, 1, 0);
    } else {
      DivideBy(h + 1, top, 0, h + 1);
      Scale(n, top * BASE - 1, w);
      Distribute(top * BASE, -1, w);
      NotNegative(n, w);
      DivideBy(n * w, top * BASE * w, 0, n * w);
    }
  }

  /** A limb with the bits after the guard bit cleared. */
  function Cleared(x: Limb, bit: nat): (r: Limb)
    requires bit > 0
  {
    ClearedFits(x, bit);
    x / bit * bit
  }

  lemma ClearedFits(x: Limb, bit: nat)
    requires bit > 0
    ensures 0 <= x / bit * bit <= x
  {
    DividedIsSmaller(x, bit);
    NotNegative(x / bit, bit);
    assert x == x / bit * bit + x % bit;
  }

  /** Clearing the bits after the guard bit changes no kept bit. */
  lemma RoundedDown(x: Limb, bit: nat, two: nat)
    requires bit > 0 && two == 2 * bit
    ensures Cleared(x, bit) / two == x / two
  {
    ClearedFits(x, bit);
    var q := x / bit;
    DivideBy(q * bit, bit, q, 0);
    FloatShift.DivideTwice(x, bit, 2);
    FloatShift.DivideTwice(q * bit, bit, 2);
  }

  // ---------- The steps ----------

  /** ROUND_COLLECT_BITS: is there a bit after the guard bit? */
  method Collect(mant: array<Limb>, i: nat, bit: nat) returns (sticky: bool)
    requires mant.Length == LIMBS && i < LIMBS && bit > 0
    ensures !sticky <==> mant[i] % bit == 0 && Value(mant[i + 1..]) == 0
  {
    sticky := mant[i] % bit != 0;
    var j := i + 1;
    while j < LIMBS
      invariant i < j <= LIMBS
      invariant !sticky <==> mant[i] % bit == 0 && forall k :: i < k < j ==> mant[k] == 0
    {
      sticky := sticky || mant[j] != 0;
      j := j + 1;
    }
    ghost var rest := mant[i + 1..];
    assert forall k :: i < k < LIMBS ==> mant[k] == rest[k - i - 1];
    if forall k :: 0 <= k < |rest| ==> rest[k] == 0 {
      ZeroValue(rest);
    } else if Value(rest) == 0 {
      ZeroLimbs(rest);
    }
  }

  /** The limbs after `i` are cleared. */
  method ClearAfter(mant: array<Limb>, i: nat)
    requires mant.Length == LIMBS && i < LIMBS
    modifies mant
    ensures forall k :: 0 <= k < LIMBS ==> mant[k] == if k > i then 0 else old(mant[k])
  {
    var j := i + 1;
    while j < LIMBS
      invariant i < j <= LIMBS
      invariant forall k :: 0 <= k < LIMBS ==> mant[k] == if i < k < j then 0 else old(mant[k])
    {
      mant[j] := 0;
      j := j + 1;
    }
  }

  /** The carry: while a limb has become zero, one is added to the limb before it. */
  method Propagate(mant: array<Limb>, i: nat)
    requires mant.Length == LIMBS && i < LIMBS
    modifies mant
    ensures forall k :: i <= k < LIMBS ==> mant[k] == old(mant[k])
    ensures Value(mant[..i]) == if mant[i] == 0 then (old(Value(mant[..i])) + 1) % BPow(i) else old(Value(mant[..i]))
  {
    ghost var was := mant[..i];
    ghost var v := Value(was);
    ValueBound(was);
    assert BPow(0) == 1;
    hide Value, BPow;
    if mant[i] == 0 {
      var c := i;
      while c > 0 && mant[c] == 0
        invariant c <= i && (forall k :: i <= k < LIMBS ==> mant[k] == old(mant[k]))
        invariant Value(mant[..i]) + (if mant[c] == 0 then BPow(i - c) else 0) == v + 1
      {
        c := c - 1;
        BumpLimb(mant, i, c);
      }
      ValueBound(mant[..i]);
      Wrapped(v, BPow(i), Value(mant[..i]), c == 0 && mant[0] == 0);
    }
  }

  method BumpLimb(mant: array<Limb>, i: nat, c: nat)
    requires mant.Length == LIMBS && c < i < LIMBS
    modifies mant
    ensures forall k :: i <= k < LIMBS ==> mant[k] == old(mant[k])
    ensures Value(mant[..i]) + (if mant[c] == 0 then BPow(i - c) else 0) == old(Value(mant[..i])) + BPow(i - 1 - c)
  {
    hide Value, BPow;
    ghost var t := mant[..i];
    Bump(t, c);
    mant[c] := (mant[c] + 1) % BASE;
    assert mant[..i] == t[c := (t[c] + 1) % BASE];
  }

  lemma Wrapped(v: nat, p: nat, w: nat, over: bool)
    requires v < p && w + (if over then p else 0) == v + 1 && (over || w < p)
    ensures w == (v + 1) % p
  {
    if over {
      DivideBy(v + 1, p, 1, 0);
    } else {
      DivideBy(v + 1, p, 0, v + 1);
    }
  }

  /** Adding one to limb `c`, modulo the base. */
  lemma Bump(t: seq<Limb>, c: nat)
    requires c < |t|
    ensures Value(t[c := (t[c] + 1) % BASE]) + (if t[c] == BASE - 1 then BPow(|t| - c) else 0)
      == Value(t) + BPow(|t| - 1 - c)
  {
    hide Value;
    var p := BPow(|t| - 1 - c);
    assert BPow(|t| - c) == BASE * p;
    hide BPow;
    if t[c] == BASE - 1 {
      var z := t[c := 0];
      AddAt(z, c, BASE - 1);
      assert z[c := z[c] + (BASE - 1)] == t;
      Distribute(BASE, -1, p);
    } else {
      AddAt(t, c, 1);
    }
  }

  // ---------- The whole mantissa ----------

  /** One of the last kept bit, when `bits` bits are kept. */
  function Unit(bits: nat): (u: nat)
    requires bits <= 192
    ensures u > 0
  {
    Pow2(192 - bits)
  }

  /** How the unit, the limb that holds the guard bit and the bits before it in that limb fit together. */
  lemma Units(bits: nat, i: nat, p: nat)
    requires bits < 192 && i == bits / 32 && p == bits % 32
    ensures Pow2(p) * Pow2(32 - p) == BASE && Pow2(32 - p) == 2 * Pow2(31 - p)
    ensures Pow2(32 - p) * BPow(5 - i) == Unit(bits)
    ensures BPow(i) * BASE * BPow(5 - i) == BPow(6)
    ensures Pow2(bits) * Unit(bits) == BPow(6)
  {
    FloatShift.TwoParts(p);
    FloatShift.BPowIsPow2(5 - i);
    Pow2Adds(32 - p, 32 * (5 - i));
    FloatShift.BPowIsPow2(6);
    Pow2Adds(bits, 192 - bits);
    assert BPow(i + 1) == BASE * BPow(i);
    Commute(BASE, BPow(i));
    BPowAdds(i + 1, 5 - i);
  }

  /** The kept bits of a mantissa as a number. */
  function Kept(m: seq<Limb>, bits: nat): int
    requires bits <= 192
  {
    Value(m) / Unit(bits)
  }

  lemma KeptIs(m: seq<Limb>, bits: nat, i: nat, p: nat)
    requires |m| == LIMBS && bits < 192 && i == bits / 32 && p == bits % 32
    ensures Kept(m, bits) == Value(m[..i]) * Pow2(p) + m[i] / Pow2(32 - p)
    ensures Value(m) % Unit(bits) == (m[i] % Pow2(32 - p)) * BPow(5 - i) + Value(m[i + 1..])
  {
    hide Value, BPow, Pow2;
    Units(bits, i, p);
    Around(m, i);
    KeptAndCut(Value(m[..i]), m[i], Value(m[i + 1..]), BPow(5 - i), Pow2(p), Pow2(32 - p));
  }

  /** `test_bit` */
  method TestBit(mant: array<Limb>, bit: nat) returns (isSet: bool)
    requires mant.Length == LIMBS && bit < 192
    ensures isSet <==> (mant[bit / 32] / Pow2(31 - bit % 32)) % 2 == 1
  {
    isSet := (mant[bit / 32] / Pow2(31 - bit % 32)) % 2 == 1;
  }

  /** The last kept bit tells whether what is kept is odd. */
  lemma LastKeptBit(m: seq<Limb>, bits: nat)
    requires |m| == LIMBS && 0 < bits < 192
    ensures (m[(bits - 1) / 32] / Pow2(31 - (bits - 1) % 32)) % 2 == Kept(m, bits) % 2
  {
    hide Kept, BPow, Value, Pow2;
    var i, p := bits / 32, bits % 32;
    KeptIs(m, bits, i, p);
    if p > 0 {
      assert (bits - 1) / 32 == i && 31 - (bits - 1) % 32 == 32 - p;
      PartLimbKept(m, i, p);
    } else {
      assert (bits - 1) / 32 == i - 1 && 31 - (bits - 1) % 32 == 0;
      WholeLimbsKept(m, i);
    }
  }

  lemma PartLimbKept(m: seq<Limb>, i: nat, p: nat)
    requires |m| == LIMBS && i < LIMBS && 0 < p < 32
    ensures (m[i] / Pow2(32 - p)) % 2 == (Value(m[..i]) * Pow2(p) + m[i] / Pow2(32 - p)) % 2
  {
    hide Value;
    assert Pow2(p) == 2 * Pow2(p - 1);
    DividedIsSmaller(m[i], Pow2(32 - p));
    hide Pow2;
    EvenPart(Value(m[..i]), Pow2(p - 1), m[i] / Pow2(32 - p));
  }

  lemma NoPower()
    ensures Pow2(0) == 1
  {
  }

  lemma SameParity(v: nat, d: nat)
    ensures (v * BASE + d) % 2 == d % 2
  {
    assert v * BASE + d == 2 * (v * 0x8000_0000) + d;
  }

  lemma WholeLimbsKept(m: seq<Limb>, i: nat)
    requires |m| == LIMBS && 0 < i < LIMBS
    ensures (m[i - 1] / Pow2(0)) % 2 == (Value(m[..i]) * Pow2(0) + m[i] / Pow2(32)) % 2
  {
    hide Value, Pow2;
    WordPowers();
    NoPower();
    var d, u := m[i - 1], m[..i - 1];
    assert m[..i] == u + [d];
    ValueSnoc(u, d);
    DivideBy(m[i], Pow2(32), 0, m[i]);
    SameParity(Value(u), d);
  }

  lemma EvenPart(h: nat, q: nat, y: nat)
    ensures (h * (2 * q) + y) % 2 == y % 2
  {
    Associate(h, 2, q);
    Commute(h, 2);
    Associate(2, h, q);
    DivideBy(h * (2 * q) + y, 2, h * q + y / 2, y % 2);
  }

  /** ROUND_ABS_UP: one is added at the last kept bit, modulo 2 to the 192. */
  method RoundUp(mant: array<Limb>, bits: nat, i: nat, p: nat, bit: nat) returns (over: bool)
    requires mant.Length == LIMBS && 0 < bits < 192 && i == bits / 32 && p == bits % 32 && bit == Pow2(31 - p)
    requires (mant[i] / bit) % 2 == 1
    modifies mant
    ensures BPow(6) > 0 && Value(mant[..]) == ((Kept(old(mant[..]), bits) + 1) * Unit(bits)) % BPow(6)
    ensures over == (mant[0] == 0)
  {
    hide Value, BPow, Pow2, Kept;
    ghost var m := mant[..];
    ghost var two := Pow2(32 - p);
    Units(bits, i, p);
    Around(m, i);
    GuardTells(m[i], 0, 1, bit, two);
    KeptIs(m, bits, i, p);
    KeptFits(m[i], Pow2(p), two);
    ghost var y := m[i] / two;
    mant[i] := (Cleared(mant[i], bit) + bit) % BASE;
    ClearAfter(mant, i);
    assert mant[..i] == m[..i];
    Propagate(mant, i);
    over := mant[0] == 0;
    Around(mant[..], i);
    ZeroValue(mant[i + 1..]);
    Distribute(y, 1, two);
    RoundedUp(Value(m[..i]), y, Value(mant[..i]), mant[i], Pow2(p), two, BPow(5 - i), BPow(i));
  }

  lemma KeptFits(x: Limb, p2: nat, two: nat)
    requires p2 > 0 && two > 0 && p2 * two == BASE
    ensures 0 <= x / two < p2
  {
    if x / two >= p2 {
      Scale(p2, x / two, two);
    }
  }

  /** ROUND_ABS_DOWN: what is kept stays. */
  method RoundDown(mant: array<Limb>, bits: nat, i: nat, p: nat, bit: nat)
    requires mant.Length == LIMBS && bits < 192 && i == bits / 32 && p == bits % 32 && bit == Pow2(31 - p)
    modifies mant
    ensures Kept(mant[..], bits) == Kept(old(mant[..]), bits)
  {
    hide Value, BPow, Pow2, Kept, Cleared;
    ghost var m := mant[..];
    Units(bits, i, p);
    RoundedDown(m[i], bit, Pow2(32 - p));
    mant[i] := Cleared(mant[i], bit);
    ClearAfter(mant, i);
    assert mant[..i] == m[..i];
    KeptIs(m, bits, i, p);
    KeptIs(mant[..], bits, i, p);
  }

  /** The tests of the source decide as rounding to nearest does. */
  lemma Decide(m: seq<Limb>, bits: nat, i: nat, p: nat, bit: nat)
    requires |m| == LIMBS && 0 < bits < 192 && i == bits / 32 && p == bits % 32 && bit == Pow2(31 - p)
    ensures var sticky := !(m[i] % bit == 0 && Value(m[i + 1..]) == 0);
      Nearest(Value(m), Unit(bits))
        == Kept(m, bits) + (if (m[i] / bit) % 2 == 1 && (sticky || Kept(m, bits) % 2 == 1) then 1 else 0)
  {
    assert Kept(m, bits) == Value(m) / Unit(bits);
    hide Value, BPow, Pow2;
    Units(bits, i, p);
    Around(m, i);
    KeptIs(m, bits, i, p);
    GuardTells(m[i], Value(m[i + 1..]), BPow(5 - i), bit, Pow2(32 - p));
  }

  lemma ModUnits(n: nat, p: nat, unit: nat)
    requires p > 0 && unit > 0
    ensures p * unit > 0 && ((n * unit) % (p * unit)) / unit == n % p
  {
    var q, r := n / p, n % p;
    Scale(1, p, unit);
    Distribute(q * p, r, unit);
    Associate(q, p, unit);
    Scale(r + 1, p, unit);
    Distribute(r, 1, unit);
    NotNegative(r, unit);
    DivideBy(n * unit, p * unit, q, r * unit);
    DivideBy(r * unit, unit, r, 0);
  }

  /** What is kept fits its bits. */
  lemma KeptBound(m: seq<Limb>, bits: nat)
    requires |m| == LIMBS && bits < 192
    ensures 0 <= Kept(m, bits) < Pow2(bits)
  {
    hide Value, BPow, Pow2, Unit;
    ValueBound(m);
    Units(bits, bits / 32, bits % 32);
    QuotientBelow(Value(m), Unit(bits), Pow2(bits));
  }

  lemma QuotientBelow(v: nat, unit: nat, p: nat)
    requires unit > 0 && v < p * unit
    ensures 0 <= v / unit < p
  {
    DividedIsSmaller(v, unit);
    if v / unit >= p {
      Scale(p, v / unit, unit);
    }
  }

  lemma FirstLimbZero(m: seq<Limb>)
    requires |m| == LIMBS
    ensures m[0] == 0 <==> Value(m) < BPow(5)
  {
    LeadingLimbs(m, 1);
    assert m[..1] == [] + [m[0]];
    ValueSnoc([], m[0]);
    hide Value, BPow;
    if m[0] > 0 {
      Scale(1, m[0], BPow(5));
    }
  }

  /** Rounding up runs over exactly when every kept bit was set; the first limb then becomes zero. */
  lemma RanOver(was: seq<Limb>, m: seq<Limb>, bits: nat)
    requires |was| == |m| == LIMBS && 0 < bits < 192
    requires BPow(6) > 0 && Value(m) == ((Kept(was, bits) + 1) * Unit(bits)) % BPow(6)
    ensures Kept(was, bits) + 1 == Pow2(bits) ==> m[0] == 0
    ensures was[0] > 0 && m[0] == 0 ==> Kept(was, bits) + 1 == Pow2(bits)
  {
    hide Value, BPow, Pow2, Unit;
    KeptBound(was, bits);
    Units(bits, bits / 32, bits % 32);
    FirstLimbZero(was);
    FirstLimbZero(m);
    OverOrNot(Value(was), Unit(bits), Pow2(bits), BPow(6), BPow(5));
  }

  lemma OverOrNot(v: nat, unit: nat, p: nat, all: nat, first: nat)
    requires unit > 0 && p * unit == all && v / unit < p && first > 0
    ensures all > 0
    ensures v / unit + 1 == p ==> ((v / unit + 1) * unit) % all < first
    ensures v >= first && ((v / unit + 1) * unit) % all < first ==> v / unit + 1 == p
  {
    DividedIsSmaller(v, unit);
    var k := v / unit;
    var n := (k + 1) * unit;
    assert v == k * unit + v % unit;
    Distribute(k, 1, unit);
    Scale(k + 1, p, unit);
    NotNegative(k, unit);
    if k + 1 == p {
      DivideBy(n, all, 1, 0);
    } else {
      Scale(k + 2, p, unit);
      Distribute(k, 2, unit);
      DivideBy(n, all, 0, n);
    }
  }

  /** `ieee_round` under FLOAT_RC_NEAR. The kept bits become the nearest multiple of the last one, modulo 2 to the
      number of bits; the result tells a run-over, though not only that if the first limb was zero. */
  method RoundNearest(mant: array<Limb>, bits: nat) returns (over: bool)
    requires mant.Length == LIMBS && 0 < bits < 192
    modifies mant
    ensures Kept(mant[..], bits) == Nearest(old(Value(mant[..])), Unit(bits)) % Pow2(bits)
    ensures Nearest(old(Value(mant[..])), Unit(bits)) == Pow2(bits) ==> over
    ensures old(mant[0]) > 0 && over ==> Nearest(old(Value(mant[..])), Unit(bits)) == Pow2(bits)
  {
    hide Value, BPow, Pow2, Nearest, Kept, Unit;
    ghost var m := mant[..];
    var i, p := bits / 32, bits % 32;
    var bit := Pow2(31 - p);
    Decide(m, bits, i, p, bit);
    KeptBound(m, bits);
    LastKeptBit(m, bits);
    var up := false;
    if (mant[i] / bit) % 2 == 1 {
      var sticky := Collect(mant, i, bit);
      var odd := TestBit(mant, bits - 1);
      up := sticky || odd;
    }
    if up {
      over := RoundUp(mant, bits, i, p, bit);
      UpIsKept(m, mant[..], bits);
      RanOver(m, mant[..], bits);
    } else {
      RoundDown(mant, bits, i, p, bit);
      over := false;
      DivideBy(Kept(m, bits), Pow2(bits), 0, Kept(m, bits));
    }
  }

  lemma UpIsKept(was: seq<Limb>, m: seq<Limb>, bits: nat)
    requires |was| == |m| == LIMBS && 0 < bits < 192
    requires BPow(6) > 0 && Value(m) == ((Kept(was, bits) + 1) * Unit(bits)) % BPow(6)
    ensures Kept(m, bits) == (Kept(was, bits) + 1) % Pow2(bits)
  {
    KeptBound(was, bits);
    Units(bits, bits / 32, bits % 32);
    assert Kept(m, bits) == Value(m) / Unit(bits);
    hide Value, BPow, Pow2, Unit, Kept;
    ModUnits(Kept(was, bits) + 1, Pow2(bits), Unit(bits));
  }

  // ---------- Shift, then round ----------

  /** Making room for the exponent before rounding drops bits that rounding should have seen. The result is the one of
      rounding the whole number except where those bits alone tell an even number's tie from more than half. */
  lemma ShiftThenRound(v: nat, s: nat, unit: nat)
    requires s > 0 && unit > 0 && unit % 2 == 0
    ensures s * unit > 0
    ensures Nearest(v / s, unit) == Nearest(v, s * unit) <==>
      !(v % s != 0 && 2 * ((v / s) % unit) == unit && (v / s / unit) % 2 == 0)
  {
    var u, t := v / s, v % s;
    DividedIsSmaller(v, s);
    DividedIsSmaller(u, unit);
    var k, r := u / unit, u % unit;
    FloatShift.DivideTwice(v, s, unit);
    SplitTwice(v, s, u, t, unit, k, r);
    SameDecision(r, t, s, unit);
  }

  lemma SplitTwice(v: nat, s: nat, u: nat, t: nat, unit: nat, k: nat, r: nat)
    requires s > 0 && unit > 0 && v == u * s + t && t < s && u == k * unit + r && r < unit && s * unit > 0
    ensures v % (s * unit) == r * s + t && v / (s * unit) == k
  {
    Distribute(k * unit, r, s);
    Associate(k, unit, s);
    Commute(unit, s);
    Scale(r + 1, unit, s);
    Distribute(r, 1, s);
    NotNegative(r, s);
    DivideBy(v, s * unit, k, r * s + t);
  }

  lemma SameDecision(r: nat, t: nat, s: nat, unit: nat)
    requires t < s && unit % 2 == 0
    ensures 2 * r > unit ==> 2 * (r * s + t) > s * unit
    ensures 2 * r < unit ==> 2 * (r * s + t) < s * unit
    ensures 2 * r == unit ==> 2 * (r * s + t) == s * unit + 2 * t
  {
    Associate(2, r, s);
    Commute(unit, s);
    if 2 * r > unit {
      Scale(unit + 2, 2 * r, s);
      Distribute(unit, 2, s);
    } else if 2 * r < unit {
      Scale(2 * r, unit - 2, s);
      Distribute(unit, -2, s);
    }
  }

  /** A number just over half of an even one's unit: shifted first, it is rounded down though it lies nearer above. */
  lemma JustOverHalf(k: nat, s: nat, half: nat)
    requires k % 2 == 0 && s > 1 && half > 0
    ensures var v := (k * (2 * half) + half) * s + 1;
      s * (2 * half) > 0 && Nearest(v / s, 2 * half) == k && Nearest(v, s * (2 * half)) == k + 1
  {
    var u := k * (2 * half) + half;
    var v := u * s + 1;
    DivideBy(v, s, u, 1);
    DivideBy(u, 2 * half, k, half);
    ShiftThenRound(v, s, 2 * half);
    FloatShift.DivideTwice(v, s, 2 * half);
  }
}
