/**
 The vectors that expressions are computed on (asm/aasm-eval.cpp, `add_vectors` and `scalar_mult`,
 and the predicates of asm/aasm-lib.cpp): sparse vectors kept sorted by component, where a component
 is a register, the scalar part, a WRT part or a segment base, with 64-bit coefficients.
 */
module Vectors {
  import opened Common

  function Plus(a: Word, b: Word): Word {
    (a + b) % TWO64
  }

  function Times(a: Word, b: Word): Word {
    (a * b) % TWO64
  }

  /** -1 in two's complement. */
  const MINUS_ONE: Word := TWO64 - 1

  datatype Term = Term(kind: nat, value: Word)

  /** A vector without its terminating record of kind 0. */
  type Vector = seq<Term>

  const UNKNOWN: nat := 0x1_0000
  const SIMPLE: nat := 0x1_0001
  const WRT: nat := 0x1_0002
  const SEGMENT_BASE: nat := 0x1_0003
  const SEGMENT_ABSOLUTE: nat := 0x4000_0000
  /** Kinds from here on are far-absolute segments. */
  const FAR: nat := SEGMENT_BASE + SEGMENT_ABSOLUTE

  // ---------- Predicates ----------

  /** The vector from its first term that is not zero. */
  function SkipZeros(v: Vector): (r: Vector)
    ensures r != [] ==> r[0].value != 0
  {
    if v == [] || v[0].value != 0 then v else SkipZeros(v[1..])
  }

  /** A scalar, or a scalar with a far-absolute part. */
  predicate IsSimple(v: Vector) {
    var w := SkipZeros(v);
    w == [] || (w[0].kind == SIMPLE && (var x := SkipZeros(w[1..]); x == [] || x[0].kind >= FAR))
  }

  predicate IsReallySimple(v: Vector) {
    var w := SkipZeros(v);
    w == [] || (w[0].kind == SIMPLE && SkipZeros(w[1..]) == [])
  }

  predicate IsUnknown(v: Vector) {
    v != [] && (v[0].kind == UNKNOWN || (v[0].kind < UNKNOWN && IsUnknown(v[1..])))
  }

  predicate IsJustUnknown(v: Vector) {
    var w := SkipZeros(v);
    w != [] && w[0].kind == UNKNOWN
  }

  function ScalarPart(v: Vector): Word {
    var w := SkipZeros(v);
    if w != [] && w[0].kind == SIMPLE then w[0].value else 0
  }

  // ---------- Operations ----------

  function Scalar(x: Word): Vector {
    [Term(SIMPLE, x)]
  }

  function UnknownVector(): Vector {
    [Term(UNKNOWN, 1)]
  }

  /** The terms up to the first far-absolute one, or all of them. */
  function Kept(v: Vector, preserve: bool): (r: Vector) {
    if v == [] || (v[0].kind >= FAR && !preserve) then [] else [v[0]] + Kept(v[1..], preserve)
  }

  function Merge(p: Vector, q: Vector, preserve: bool): Vector
    decreases |p| + |q|
  {
    if p == [] || q == [] || p[0].kind >= FAR || q[0].kind >= FAR then
      Kept(p, preserve) + Kept(q, preserve)
    else if p[0].kind > q[0].kind then
      [q[0]] + (if q[0].kind == UNKNOWN then [] else Merge(p, q[1..], preserve))
    else if p[0].kind < q[0].kind then
      [p[0]] + (if p[0].kind == UNKNOWN then [] else Merge(p[1..], q, preserve))
    else
      var sum := Plus(p[0].value, q[0].value);
      (if sum != 0 then [Term(p[0].kind, sum)] else [])
      + (if p[0].kind == UNKNOWN then [] else Merge(p[1..], q[1..], preserve))
  }

  function AddVectors(p: Vector, q: Vector): Vector {
    Merge(p, q, IsReallySimple(p) || IsReallySimple(q))
  }

  /** Every coefficient times `k`; the far-absolute part is stripped. */
  function ScalarMult(v: Vector, k: Word): Vector {
    if v == [] || v[0].kind >= FAR then [] else [Term(v[0].kind, Times(k, v[0].value))] + ScalarMult(v[1..], k)
  }

  // ---------- What a vector denotes ----------

  /** Strictly sorted by kinds above `low`, without an unknown and without a far-absolute part. */
  predicate PlainAbove(v: Vector, low: nat) {
    v == [] || (low < v[0].kind < FAR && v[0].kind != UNKNOWN && PlainAbove(v[1..], v[0].kind))
  }

  predicate Plain(v: Vector) {
    PlainAbove(v, 0)
  }

  function Coefficient(v: Vector, kind: nat): Word {
    if v == [] then 0 else if v[0].kind == kind then v[0].value else Coefficient(v[1..], kind)
  }

  ghost predicate SameVector(p: Vector, q: Vector) {
    forall kind :: Coefficient(p, kind) == Coefficient(q, kind)
  }

  lemma {:induction false} NoCoefficient(v: Vector, low: nat, kind: nat)
    requires PlainAbove(v, low) && kind <= low
    ensures Coefficient(v, kind) == 0
  {
    if v != [] {
      NoCoefficient(v[1..], v[0].kind, kind);
    }
  }

  lemma {:induction false} KeptAll(v: Vector, low: nat, preserve: bool)
    requires PlainAbove(v, low)
    ensures Kept(v, preserve) == v
  {
    if v != [] {
      KeptAll(v[1..], v[0].kind, preserve);
      assert v == [v[0]] + v[1..];
    }
  }

  lemma MergeEnds(p: Vector, q: Vector, low: nat, preserve: bool)
    requires PlainAbove(p, low) && PlainAbove(q, low) && (p == [] || q == [])
    ensures Merge(p, q, preserve) == if p == [] then q else p
  {
    KeptAll(p, low, preserve);
    KeptAll(q, low, preserve);
  }

  /** The sum of sorted vectors is sorted. */
  lemma {:induction false} MergeSorted(p: Vector, q: Vector, low: nat, preserve: bool)
    requires PlainAbove(p, low) && PlainAbove(q, low)
    ensures PlainAbove(Merge(p, q, preserve), low)
    decreases |p| + |q|
  {
    if p == [] || q == [] {
      MergeEnds(p, q, low, preserve);
    } else {
      var p', q', first := MergeFirst(p, q, preserve);
      MergeSorted(p', q', first, preserve);
      var rest := Merge(p', q', preserve);
      assert PlainAbove(rest, low);
      assert forall t: Term :: ([t] + rest)[1..] == rest;
      assert [] + rest == rest;
    }
  }

  /** Each coefficient of the sum is the sum of the coefficients. */
  lemma {:induction false} MergeCoefficient(p: Vector, q: Vector, low: nat, preserve: bool, kind: nat)
    requires PlainAbove(p, low) && PlainAbove(q, low)
    ensures Coefficient(Merge(p, q, preserve), kind) == Plus(Coefficient(p, kind), Coefficient(q, kind))
    decreases |p| + |q|
  {
    if p == [] || q == [] {
      MergeEnds(p, q, low, preserve);
    } else {
      var p', q', first := MergeFirst(p, q, preserve);
      MergeCoefficient(p', q', first, preserve, kind);
      var rest := Merge(p', q', preserve);
      if kind == first {
        MergeSorted(p', q', first, preserve);
        NoCoefficient(p', first, kind);
        NoCoefficient(q', first, kind);
        NoCoefficient(rest, first, kind);
      }
      assert forall t: Term :: ([t] + rest)[1..] == rest;
      assert [] + rest == rest;
    }
  }

  /** One step of the merge: the smaller first term, or the sum of the two first terms unless it is 0. */
  lemma MergeFirst(p: Vector, q: Vector, preserve: bool) returns (p': Vector, q': Vector, first: nat)
    requires p != [] && q != [] && p[0].kind < FAR && q[0].kind < FAR && p[0].kind != UNKNOWN && q[0].kind != UNKNOWN
    ensures p' == (if p[0].kind > q[0].kind then p else p[1..])
    ensures q' == (if p[0].kind < q[0].kind then q else q[1..])
    ensures first == if p[0].kind > q[0].kind then q[0].kind else p[0].kind
    ensures var value := Plus(if p[0].kind > first then 0 else p[0].value, if q[0].kind > first then 0 else q[0].value);
      Merge(p, q, preserve)
      == (if p[0].kind != q[0].kind || value != 0 then [Term(first, value)] else []) + Merge(p', q', preserve)
  {
    p' := if p[0].kind > q[0].kind then p else p[1..];
    q' := if p[0].kind < q[0].kind then q else q[1..];
    first := if p[0].kind > q[0].kind then q[0].kind else p[0].kind;
  }

  lemma AddVectorsIsAddition(p: Vector, q: Vector)
    requires Plain(p) && Plain(q)
    ensures Plain(AddVectors(p, q))
    ensures forall kind :: Coefficient(AddVectors(p, q), kind) == Plus(Coefficient(p, kind), Coefficient(q, kind))
  {
    var preserve := IsReallySimple(p) || IsReallySimple(q);
    forall kind: nat
      ensures Coefficient(AddVectors(p, q), kind) == Plus(Coefficient(p, kind), Coefficient(q, kind))
    {
      MergeCoefficient(p, q, 0, preserve, kind);
    }
    MergeSorted(p, q, 0, preserve);
  }

  lemma {:induction false} ScalarMultIsScaling(v: Vector, low: nat, k: Word, kind: nat)
    requires PlainAbove(v, low)
    ensures PlainAbove(ScalarMult(v, k), low)
    ensures Coefficient(ScalarMult(v, k), kind) == Times(k, Coefficient(v, kind))
  {
    if v != [] {
      ScalarMultIsScaling(v[1..], v[0].kind, k, kind);
    }
  }

  // ---------- The equality test ----------

  lemma TimesMinusOne(b: Word, c: Word)
    requires c == Times(MINUS_ONE, b)
    ensures c == if b == 0 then 0 else TWO64 - b
  {
    if b > 0 {
      assert MINUS_ONE * b == TWO64 * (b - 1) + (TWO64 - b);
    }
  }

  lemma DifferenceOf(a: Word, b: Word, c: Word, d: Word)
    requires c == Times(MINUS_ONE, b) && d == Plus(a, c)
    ensures d == if a >= b then a - b else a - b + TWO64
  {
    TimesMinusOne(b, c);
  }

  /** A plain vector with a term that is not zero has a coefficient that is not zero. */
  lemma {:induction false} ZeroVector(v: Vector, low: nat)
    requires PlainAbove(v, low)
    ensures SkipZeros(v) == [] ==> forall kind :: Coefficient(v, kind) == 0
    ensures SkipZeros(v) != [] ==> Coefficient(v, SkipZeros(v)[0].kind) != 0 && SkipZeros(v)[0].kind > low
  {
    if v != [] {
      ZeroVector(v[1..], v[0].kind);
    }
  }

  /** What the source asks of a difference is whether the two vectors are the same. */
  lemma EqualityTest(e: Vector, f: Vector)
    requires Plain(e) && Plain(f)
    ensures var d := AddVectors(e, ScalarMult(f, MINUS_ONE));
      !IsUnknown(d) && (IsReallySimple(d) && ScalarPart(d) == 0 <==> SameVector(e, f))
  {
    var g := ScalarMult(f, MINUS_ONE);
    ScalarMultIsScaling(f, 0, MINUS_ONE, 0);
    AddVectorsIsAddition(e, g);
    var d := AddVectors(e, g);
    forall kind: nat
      ensures Coefficient(d, kind) == 0 <==> Coefficient(e, kind) == Coefficient(f, kind)
    {
      ScalarMultIsScaling(f, 0, MINUS_ONE, kind);
      DifferenceOf(Coefficient(e, kind), Coefficient(f, kind), Coefficient(g, kind), Coefficient(d, kind));
    }
    ZeroVector(d, 0);
    PlainIsKnown(d, 0);
  }

  lemma {:induction false} PlainIsKnown(v: Vector, low: nat)
    requires PlainAbove(v, low)
    ensures !IsUnknown(v)
  {
    if v != [] {
      PlainIsKnown(v[1..], v[0].kind);
    }
  }

  // ---------- The loops ----------

  /** What one turn of the merge writes for the two first terms. */
  function Written(a: Term, b: Term): Vector {
    if a.kind > b.kind then [b]
    else if a.kind < b.kind then [a]
    else if Plus(a.value, b.value) != 0 then [Term(a.kind, Plus(a.value, b.value))]
    else []
  }

  lemma MergeTurn(r: Vector, p: Vector, q: Vector, i: nat, j: nat, preserve: bool, i': nat, j': nat)
    requires i < |p| && j < |q| && p[i].kind < FAR && q[j].kind < FAR
    requires i' == if p[i].kind > q[j].kind then i else i + 1
    requires j' == if p[i].kind < q[j].kind then j else j + 1
    ensures Min(p[i].kind, q[j].kind) == UNKNOWN ==>
      r + Merge(p[i..], q[j..], preserve) == r + Written(p[i], q[j])
    ensures !(Min(p[i].kind, q[j].kind) == UNKNOWN) ==>
      r + Merge(p[i..], q[j..], preserve) == (r + Written(p[i], q[j])) + Merge(p[i'..], q[j'..], preserve)
  {
    var v, w := p[i..], q[j..];
    assert v[1..] == p[i + 1..] && w[1..] == q[j + 1..];
    assert v[0] == p[i] && w[0] == q[j];
    var rest := Merge(p[i'..], q[j'..], preserve);
    if !(Min(p[i].kind, q[j].kind) == UNKNOWN) {
      assert Merge(v, w, preserve) == Written(p[i], q[j]) + rest;
      assert r + (Written(p[i], q[j]) + rest) == (r + Written(p[i], q[j])) + rest;
    } else {
      assert Merge(v, w, preserve) == Written(p[i], q[j]) + [];
    }
  }

  lemma MergeStops(r: Vector, p: Vector, q: Vector, preserve: bool)
    requires p == [] || q == [] || p[0].kind >= FAR || q[0].kind >= FAR
    ensures r + Merge(p, q, preserve) == (r + Kept(p, preserve)) + Kept(q, preserve)
  {
  }

  /** `add_vectors`: a merge, then what is left of either side. */
  method SumVectors(p: Vector, q: Vector) returns (r: Vector)
    ensures r == AddVectors(p, q)
  {
    var preserve := IsReallySimple(p) || IsReallySimple(q);
    var i, j := 0, 0;
    r := [];
    ghost var goal := AddVectors(p, q);
    assert p[0..] == p && q[0..] == q;
    while i < |p| && j < |q| && p[i].kind < FAR && q[j].kind < FAR
      invariant i <= |p| && j <= |q|
      invariant r + Merge(p[i..], q[j..], preserve) == goal
      decreases |p| + |q| - i - j
    {
      var stop;
      r, i, j, stop := MergeOnce(r, p, q, i, j, preserve);
      if stop {
        return;
      }
    }
    MergeStops(r, p[i..], q[j..], preserve);
    r := AppendKept(r, p, i, preserve);
    r := AppendKept(r, q, j, preserve);
  }

  /** One turn of the merge; it stops after an unknown. */
  method MergeOnce(r: Vector, p: Vector, q: Vector, i: nat, j: nat, ghost preserve: bool)
    returns (r': Vector, i': nat, j': nat, stop: bool)
    requires i < |p| && j < |q| && p[i].kind < FAR && q[j].kind < FAR
    ensures i <= i' <= |p| && j <= j' <= |q| && i + j < i' + j'
    ensures r + Merge(p[i..], q[j..], preserve) == r' + if stop then [] else Merge(p[i'..], q[j'..], preserve)
  {
    r', i', j' := r, i, j;
    var last;
    if p[i].kind > q[j].kind {
      r', last, j' := r + [q[j]], q[j].kind, j + 1;
    } else if p[i].kind < q[j].kind {
      r', last, i' := r + [p[i]], p[i].kind, i + 1;
    } else {
      var sum := Plus(p[i].value, q[j].value);
      if sum != 0 {
        r' := r + [Term(p[i].kind, sum)];
      }
      last, i', j' := p[i].kind, i + 1, j + 1;
    }
    stop := last == UNKNOWN;
    assert r' == r + Written(p[i], q[j]);
    MergeTurn(r, p, q, i, j, preserve, i', j');
  }

  method AppendKept(start: Vector, v: Vector, from: nat, preserve: bool) returns (r: Vector)
    requires from <= |v|
    ensures r == start + Kept(v[from..], preserve)
  {
    var i := from;
    r := start;
    while i < |v| && (preserve || v[i].kind < FAR)
      invariant from <= i <= |v|
      invariant r + Kept(v[i..], preserve) == start + Kept(v[from..], preserve)
    {
      assert v[i..][1..] == v[i + 1..];
      r, i := r + [v[i]], i + 1;
    }
  }

  /** The vector held in a buffer up to its terminating record. */
  function Held(s: seq<Term>): Vector {
    if s == [] || s[0].kind == 0 then [] else [s[0]] + Held(s[1..])
  }

  lemma {:induction false} HeldUpTo(s: seq<Term>, n: nat)
    requires n < |s| && s[n].kind == 0 && forall i :: 0 <= i < n ==> s[i].kind != 0
    ensures Held(s) == s[..n]
  {
    if n > 0 {
      HeldUpTo(s[1..], n - 1);
      assert s[..n] == [s[0]] + s[1..][..n - 1];
    }
  }

  lemma {:induction false} ScaledPrefix(s: seq<Term>, k: Word, n: nat)
    requires n <= |s| && forall i :: 0 <= i < n ==> 0 < s[i].kind < FAR
    requires n < |s| ==> s[n].kind == 0 || s[n].kind >= FAR
    ensures |ScalarMult(Held(s), k)| == n
    ensures forall i :: 0 <= i < n ==> ScalarMult(Held(s), k)[i] == Term(s[i].kind, Times(k, s[i].value))
  {
    if n > 0 {
      ScaledPrefix(s[1..], k, n - 1);
    }
  }

  /** `scalar_mult`: in place, ending the vector at its far-absolute part. */
  method ScaleInPlace(v: array<Term>, k: Word)
    requires exists n :: 0 <= n < v.Length && v[n].kind == 0
    modifies v
    ensures Held(v[..]) == ScalarMult(old(Held(v[..])), k)
  {
    ghost var was := v[..];
    ghost var end :| 0 <= end < v.Length && v[end].kind == 0;
    var i := 0;
    while v[i].kind != 0 && v[i].kind < FAR
      invariant 0 <= i <= end
      invariant forall j :: 0 <= j < i ==> 0 < was[j].kind < FAR && v[j] == Term(was[j].kind, Times(k, was[j].value))
      invariant forall j :: i <= j < v.Length ==> v[j] == was[j]
      decreases end - i
    {
      v[i] := Term(v[i].kind, Times(k, v[i].value));
      i := i + 1;
    }
    v[i] := Term(0, v[i].value);
    HeldUpTo(v[..], i);
    ScaledPrefix(was, k, i);
  }
}
