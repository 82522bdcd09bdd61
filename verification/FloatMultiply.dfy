/**
 The truncating product of two mantissas (lib/cpp/floating.cpp, `float_multiply`).
 */
module FloatMultiply {
  import opened Limbs
  import opened Powers

  type Limb2 = x: int | 0 <= x < 0x1_0000_0000_0000_0000

  // ---------- The sum of the partial products ----------

  /** The first `m` limbs at their full weight. */
  function Lead(s: seq<Limb>, m: nat): nat
    requires m <= |s|
  {
    Value(s[..m]) * BPow(|s| - m)
  }

  lemma LeadStep(s: seq<Limb>, m: nat)
    requires m < |s|
    ensures Lead(s, m + 1) == Lead(s, m) + s[m] * BPow(|s| - m - 1)
  {
    hide Value;
    var p := BPow(|s| - m - 1);
    assert s[..m + 1] == s[..m] + [s[m]];
    ValueSnoc(s[..m], s[m]);
    Distribute(Value(s[..m]) * BASE, s[m], p);
    Associate(Value(s[..m]), BASE, p);
    assert BPow(|s| - m) == BASE * p;
  }

  lemma LeadAll(s: seq<Limb>)
    ensures Lead(s, |s|) == Value(s)
  {
    assert s[..|s|] == s;
  }

  /** What the double loop has added after `i` rows and `j` products of the next one. */
  function Sum(a: seq<Limb>, b: seq<Limb>, i: nat, j: nat): int
    requires |a| == |b| == LIMBS && i <= LIMBS && j <= LIMBS && (i == LIMBS ==> j == 0)
    decreases i, j
  {
    if j == 0 then (if i == 0 then 0 else Sum(a, b, i - 1, LIMBS))
    else Sum(a, b, i, j - 1) + a[i] * b[j - 1] * BPow(11 - i - j)
  }

  lemma SumBegins(a: seq<Limb>, b: seq<Limb>)
    requires |a| == |b| == LIMBS
    ensures Sum(a, b, 0, 0) == 0
  {
  }

  lemma SumStep(a: seq<Limb>, b: seq<Limb>, i: nat, j: nat)
    requires |a| == |b| == LIMBS && i < LIMBS && j < LIMBS
    ensures Sum(a, b, i, j + 1) == Sum(a, b, i, j) + a[i] * b[j] * BPow(10 - i - j)
  {
    hide BPow;
  }

  lemma SumRow(a: seq<Limb>, b: seq<Limb>, i: nat)
    requires |a| == |b| == LIMBS && i < LIMBS
    ensures Sum(a, b, i + 1, 0) == Sum(a, b, i, LIMBS)
  {
  }

  lemma {:induction false} RowSum(a: seq<Limb>, b: seq<Limb>, i: nat, j: nat)
    requires |a| == |b| == LIMBS && i < LIMBS && j <= LIMBS
    ensures Sum(a, b, i, j) == Sum(a, b, i, 0) + (a[i] * BPow(5 - i)) * Lead(b, j)
    decreases j
  {
    hide BPow, Value;
    if j == 0 {
      NoLead(b);
    } else {
      RowSum(a, b, i, j - 1);
      LeadStep(b, j - 1);
      BPowAdds(5 - i, 6 - j);
      hide Lead;
      RowStep(Sum(a, b, i, 0), Sum(a, b, i, j - 1), Sum(a, b, i, j), a[i], b[j - 1], BPow(5 - i), BPow(6 - j),
        BPow(11 - i - j),
        Lead(b, j - 1), Lead(b, j));
    }
  }

  lemma NoLead(s: seq<Limb>)
    ensures Lead(s, 0) == 0
  {
  }

  lemma RowStep(s0: int, s1: int, s2: int, x: int, y: int, p: int, q: int, pq: int, l0: int, l1: int)
    requires s1 == s0 + (x * p) * l0 && l1 == l0 + y * q && pq == p * q && s2 == s1 + x * y * pq
    ensures s2 == s0 + (x * p) * l1
  {
    OneProduct(x, y, p, q, l0);
  }

  lemma OneProduct(x: int, y: int, p: int, q: int, l: int)
    ensures (x * p) * (l + y * q) == (x * p) * l + x * y * (p * q)
  {
    Distribute(l, y * q, x * p);
    Commute(x * p, l + y * q);
    Commute(x * p, l);
    Commute(x * p, y * q);
    assert (x * p) * (y * q) == x * y * (p * q) by {
      Associate(x, p, y * q);
      Associate(p, y, q);
      Commute(p, y);
      Associate(y, p, q);
      Associate(x, y, p * q);
    }
  }

  lemma RowAdds(x: int, y: int, v: int)
    ensures (x + y) * v == x * v + y * v
  {
    Distribute(x, y, v);
  }

  lemma {:induction false} AllRows(a: seq<Limb>, b: seq<Limb>, i: nat)
    requires |a| == |b| == LIMBS && i <= LIMBS
    ensures Sum(a, b, i, 0) == Lead(a, i) * Value(b)
  {
    hide Value, BPow;
    if i == 0 {
      NoLead(a);
    } else {
      AllRows(a, b, i - 1);
      RowSum(a, b, i - 1, LIMBS);
      LeadAll(b);
      LeadStep(a, i - 1);
      RowAdds(Lead(a, i - 1), a[i - 1] * BPow(6 - i), Value(b));
    }
  }

  /** The partial products add up to the product. */
  lemma SumIsProduct(a: seq<Limb>, b: seq<Limb>)
    requires |a| == |b| == LIMBS
    ensures Sum(a, b, LIMBS, 0) == Value(a) * Value(b)
  {
    AllRows(a, b, LIMBS);
    LeadAll(a);
  }

  // ---------- The loops ----------

  /** One partial product goes into two places. */
  lemma Split(t: seq<nat>, k: nat, n: nat)
    requires |t| == 12 && k < 11
    ensures var u := t[k := t[k] + n / BASE]; Value(u[k + 1 := u[k + 1] + n % BASE]) == Value(t) + n * BPow(10 - k)
  {
    hide Value;
    var u, p := t[k := t[k] + n / BASE], BPow(10 - k);
    AddAt(t, k, n / BASE);
    AddAt(u, k + 1, n % BASE);
    assert BPow(11 - k) == BASE * p;
    Associate(n / BASE, BASE, p);
    Distribute(n / BASE * BASE, n % BASE, p);
  }

  /** Moving what exceeds the base one place up keeps the number. */
  lemma Carry(t: seq<nat>, k: nat)
    requires 1 <= k < |t|
    ensures Value(t[k - 1 := t[k - 1] + t[k] / BASE][k := t[k] % BASE]) == Value(t)
  {
    hide Value;
    var r := t[k := t[k] % BASE];
    var q, p := t[k] / BASE, BPow(|t| - 1 - k);
    AddAt(r, k, q * BASE);
    assert r[k := r[k] + q * BASE] == t;
    AddAt(r, k - 1, q);
    assert r[k - 1 := r[k - 1] + q] == t[k - 1 := t[k - 1] + q][k := t[k] % BASE];
    assert BPow(|t| - k) == BASE * p;
    Associate(q, BASE, p);
  }

  lemma LimbProduct(x: Limb, y: Limb)
    ensures 0 <= x * y < 0x1_0000_0000_0000_0000
  {
    Scale(x, BASE - 1, y);
    Commute(BASE - 1, y);
    Scale(y, BASE - 1, BASE - 1);
    NotNegative(x, y);
  }

  method AddProduct(temp: array<Limb2>, k: nat, x: Limb, y: Limb, ghost bound: nat)
    requires temp.Length == 12 && k < 11 && bound < 64 * BASE && forall i :: 0 <= i < 12 ==> temp[i] <= bound
    modifies temp
    ensures Value(temp[..]) == old(Value(temp[..])) + x * y * BPow(10 - k)
    ensures forall i :: 0 <= i < 12 ==> temp[i] <= bound + BASE
  {
    hide Value, BPow;
    LimbProduct(x, y);
    var n: Limb2 := x * y;
    ghost var t := temp[..];
    Split(t, k, n);
    temp[k] := temp[k] + n / BASE;
    temp[k + 1] := temp[k + 1] + n % BASE;
    ghost var u := t[k := t[k] + n / BASE];
    assert temp[..] == u[k + 1 := u[k + 1] + n % BASE];
  }

  /** The double loop: the partial products add up, and no place overflows its 64 bits. */
  method Accumulate(to: array<Limb>, from: array<Limb>, temp: array<Limb2>)
    requires to.Length == from.Length == LIMBS && temp.Length == 12 && forall k :: 0 <= k < 12 ==> temp[k] == 0
    modifies temp
    ensures Value(temp[..]) == Value(to[..]) * Value(from[..])
    ensures forall k :: 0 <= k < 12 ==> temp[k] <= 36 * BASE
  {
    hide Value, BPow, Sum;
    ghost var a, b := to[..], from[..];
    ZeroValue(temp[..]);
    SumBegins(a, b);
    var i := 0;
    while i < LIMBS
      invariant i <= LIMBS && Value(temp[..]) == Sum(a, b, i, 0)
      invariant forall k :: 0 <= k < 12 ==> temp[k] <= 6 * i * BASE
    {
      var j := 0;
      while j < LIMBS
        invariant j <= LIMBS && Value(temp[..]) == Sum(a, b, i, j)
        invariant forall k :: 0 <= k < 12 ==> temp[k] <= (6 * i + j) * BASE
      {
        AddProduct(temp, i + j, to[i], from[j], (6 * i + j) * BASE);
        assert a[i] == to[i] && b[j] == from[j];
        SumStep(a, b, i, j);
        j := j + 1;
      }
      SumRow(a, b, i);
      i := i + 1;
    }
    SumIsProduct(a, b);
  }

  /** The carry loop: every place but the first is brought below the base. */
  method Normalise(temp: array<Limb2>)
    requires temp.Length == 12 && forall k :: 0 <= k < 12 ==> temp[k] <= 36 * BASE
    modifies temp
    ensures Value(temp[..]) == old(Value(temp[..]))
    ensures forall k :: 1 <= k < 12 ==> temp[k] < BASE
  {
    hide Value;
    var i := 11;
    while i > 0
      invariant i <= 11 && Value(temp[..]) == old(Value(temp[..]))
      invariant forall k :: i < k < 12 ==> temp[k] < BASE
      invariant forall k :: 0 <= k < i ==> temp[k] <= 36 * BASE
      invariant temp[i] <= 37 * BASE
    {
      ghost var t := temp[..];
      Carry(t, i);
      temp[i - 1] := temp[i - 1] + temp[i] / BASE;
      temp[i] := temp[i] % BASE;
      assert temp[..] == t[i - 1 := t[i - 1] + t[i] / BASE][i := t[i] % BASE];
      i := i - 1;
    }
  }

  /** The first place is then below the base too. */
  lemma FirstIsSmall(t: seq<nat>, a: seq<Limb>, b: seq<Limb>)
    requires |t| == 12 && |a| == |b| == LIMBS && Value(t) == Value(a) * Value(b)
    requires forall k :: 1 <= k < 12 ==> t[k] < BASE
    ensures Small(t)
  {
    hide Value, BPow;
    var p := BPow(11);
    ValueBound(a);
    ValueBound(b);
    BPowAdds(6, 6);
    OneMoreBase(11);
    assert t == [t[0]] + t[1..];
    ValueSplit([t[0]], t[1..]);
    ProductBound(Value(a), Value(b), BPow(6));
    OneLimbValue(t[0]);
    if t[0] >= BASE {
      Scale(BASE, t[0], p);
    }
  }

  lemma OneMoreBase(n: nat)
    ensures BPow(n + 1) == BASE * BPow(n)
  {
  }

  lemma OneLimbValue(d: nat)
    ensures Value([d]) == d
  {
    ValueSnoc([], d);
    assert [] + [d] == [d];
  }

  lemma ProductBound(x: nat, y: nat, p: nat)
    requires x < p && y < p
    ensures x * y < p * p
  {
    Scale(x, p - 1, y);
    Scale(y, p - 1, p - 1);
    Commute(p - 1, y);
  }

  // ---------- Normalising ----------

  function TopBit(x: nat): nat {
    if x >= TOP then 1 else 0
  }

  /** One limb of the number moved up by one bit. */
  function Doubled(x: Limb, next: Limb): Limb {
    (2 * x) % BASE + TopBit(next)
  }

  lemma FirstLimb(t: seq<nat>)
    requires Small(t) && t != []
    ensures TOP * BPow(|t| - 1) <= Value(t) <==> t[0] >= TOP
  {
    var p := BPow(|t| - 1);
    LeadingLimbs(t, 1);
    assert Value(t[..1]) == t[0] by {
      ValueSnoc([], t[0]);
      assert t[..1] == [] + [t[0]];
    }
    hide Value, BPow;
    if t[0] >= TOP {
      Scale(TOP, t[0], p);
    } else {
      Scale(t[0] + 1, TOP, p);
      Distribute(t[0], 1, p);
    }
  }

  lemma DoubledLimb(x: Limb, next: Limb)
    ensures TopBit(x) * BASE + Doubled(x, next) == 2 * x + TopBit(next)
  {
  }

  lemma NoLimbs(t: seq<nat>, r: seq<nat>)
    requires |t| > 0 && t[0] < TOP
    ensures Value(r[..0]) == 2 * Value(t[..0]) + TopBit(t[0])
  {
  }

  /** A number moved up by one bit, as far as limb `m`. */
  lemma {:induction false} DoubledValue(t: seq<nat>, r: seq<nat>, m: nat)
    requires Small(t) && |t| > |r| >= m && t[0] < TOP
    requires forall i :: 0 <= i < |r| ==> r[i] == Doubled(t[i], t[i + 1])
    ensures Value(r[..m]) == 2 * Value(t[..m]) + TopBit(t[m])
  {
    if m > 0 {
      hide Value, Doubled;
      DoubledValue(t, r, m - 1);
      assert r[..m] == r[..m - 1] + [r[m - 1]] && t[..m] == t[..m - 1] + [t[m - 1]];
      ValueSnoc(r[..m - 1], r[m - 1]);
      ValueSnoc(t[..m - 1], t[m - 1]);
      DoubledLimb(t[m - 1], t[m]);
    } else {
      NoLimbs(t, r);
    }
  }

  /** The upper half of a number moved up by one bit. */
  lemma DoubledHalf(t: seq<nat>, r: seq<nat>)
    requires Small(t) && |t| == 12 && |r| == 6 && t[0] < TOP
    requires forall i :: 0 <= i < 6 ==> r[i] == Doubled(t[i], t[i + 1])
    ensures Value(r) == 2 * Value(t) / BPow(6)
  {
    var low := t[6..];
    assert r[..6] == r && low[0] == t[6];
    DoubledValue(t, r, 6);
    LeadingLimbs(t, 6);
    FirstLimb(low);
    assert BPow(6) == BASE * BPow(5);
    hide Value, BPow;
    var p := BPow(6);
    var x, y := Value(t[..6]), Value(low);
    Associate(2, x, p);
    assert 2 * TOP * BPow(5) == p;
    Distribute(2 * x, TopBit(t[6]), p);
    DivideBy(2 * Value(t), p, 2 * x + TopBit(t[6]), 2 * y - TopBit(t[6]) * p);
  }

  /** `r` is the product of the mantissas cut to six limbs, after a move of one bit if that fits (`shift` is -1 then).
      */
  ghost predicate IsProduct(a: seq<Limb>, b: seq<Limb>, r: seq<Limb>, shift: int) {
    var exact := Value(a) * Value(b);
    |r| == LIMBS &&
    if TOP * BPow(11) <= exact then shift == 0 && Value(r) == exact / BPow(6)
    else shift == -1 && Value(r) == 2 * exact / BPow(6)
  }

  method CopyHigh(temp: array<Limb2>, to: array<Limb>)
    requires temp.Length == 12 && to.Length == LIMBS && Small(temp[..])
    modifies to
    ensures to[..] == temp[..6]
  {
    ghost var t := temp[..];
    var i := 0;
    while i < LIMBS
      invariant i <= LIMBS && forall k :: 0 <= k < i ==> to[k] == t[k]
    {
      to[i] := temp[i] % BASE;
      i := i + 1;
    }
  }

  method CopyDoubled(temp: array<Limb2>, to: array<Limb>)
    requires temp.Length == 12 && to.Length == LIMBS && Small(temp[..])
    modifies to
    ensures forall k :: 0 <= k < LIMBS ==> to[k] == Doubled(temp[k], temp[k + 1])
  {
    ghost var t := temp[..];
    var i := 0;
    while i < LIMBS
      invariant i <= LIMBS && forall k :: 0 <= k < i ==> to[k] == Doubled(t[k], t[k + 1])
    {
      assert t[i] < BASE && t[i + 1] < BASE;
      to[i] := (2 * temp[i]) % BASE + (if temp[i + 1] >= TOP then 1 else 0);
      i := i + 1;
    }
  }

  /** The last loops of `float_multiply`. */
  method Narrow(temp: array<Limb2>, to: array<Limb>) returns (shift: int)
    requires temp.Length == 12 && to.Length == LIMBS && Small(temp[..])
    modifies to
    ensures if TOP * BPow(11) <= Value(temp[..]) then shift == 0 && Value(to[..]) == Value(temp[..]) / BPow(6)
            else shift == -1 && Value(to[..]) == 2 * Value(temp[..]) / BPow(6)
  {
    hide Value, BPow, Doubled;
    ghost var t := temp[..];
    FirstLimb(t);
    if temp[0] >= TOP {
      CopyHigh(temp, to);
      LeadingLimbs(t, 6);
      return 0;
    }
    CopyDoubled(temp, to);
    DoubledHalf(t, to[..]);
    return -1;
  }

  /** `float_multiply`; `to` and `from` may be the same array. */
  method Multiply(to: array<Limb>, from: array<Limb>) returns (shift: int)
    requires to.Length == from.Length == LIMBS
    modifies to
    ensures IsProduct(old(to[..]), old(from[..]), to[..], shift)
  {
    hide Value, BPow;
    var temp := new Limb2[12](i => 0);
    Accumulate(to, from, temp);
    Normalise(temp);
    FirstIsSmall(temp[..], to[..], from[..]);
    shift := Narrow(temp, to);
  }
}
