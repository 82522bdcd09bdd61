/**
 Numbers of several 32-bit limbs, most significant first, as lib/cpp/floating.cpp keeps its mantissas.
 */
module Limbs {
  import opened Powers

  const BASE: nat := 0x1_0000_0000
  const TOP: nat := 0x8000_0000
  const LIMBS: nat := 6

  type Limb = x: int | 0 <= x < 0x1_0000_0000

  function BPow(n: nat): (p: nat)
    ensures p > 0
  {
    if n == 0 then 1 else BASE * BPow(n - 1)
  }

  /** The number that digits write, most significant first; a digit may exceed the base. */
  function Value(s: seq<nat>): nat {
    if s == [] then 0 else Value(s[..|s| - 1]) * BASE + s[|s| - 1]
  }

  ghost predicate Small(s: seq<nat>) {
    forall i :: 0 <= i < |s| ==> s[i] < BASE
  }

  // ---------- Powers of the base ----------

  lemma {:induction false} BPowAdds(m: nat, n: nat)
    ensures BPow(m + n) == BPow(m) * BPow(n)
    decreases m
  {
    if m > 0 {
      BPowAdds(m - 1, n);
      Associate(BASE, BPow(m - 1), BPow(n));
    }
  }

  // ---------- Values ----------

  lemma ValueSnoc(s: seq<nat>, d: nat)
    ensures Value(s + [d]) == Value(s) * BASE + d
  {
    assert (s + [d])[..|s|] == s;
  }

  /** A number is its leading limbs, moved up, and the rest. */
  lemma {:induction false} ValueSplit(s: seq<nat>, t: seq<nat>)
    ensures Value(s + t) == Value(s) * BPow(|t|) + Value(t)
    decreases |t|
  {
    if t == [] {
      assert s + t == s;
    } else {
      var u, d := t[..|t| - 1], t[|t| - 1];
      ValueSplit(s, u);
      assert t == u + [d] && s + t == (s + u) + [d];
      ValueSnoc(u, d);
      ValueSnoc(s + u, d);
      Distribute(Value(s) * BPow(|u|), Value(u), BASE);
      Associate(Value(s), BPow(|u|), BASE);
      Commute(BPow(|u|), BASE);
    }
  }

  lemma {:induction false} ValueBound(s: seq<nat>)
    requires Small(s)
    ensures Value(s) < BPow(|s|)
  {
    if s != [] {
      var u := s[..|s| - 1];
      ValueBound(u);
      Scale(Value(u), BPow(|u|) - 1, BASE);
      Commute(BPow(|u|) - 1, BASE);
    }
  }

  /** Dividing by a power of the base keeps the leading limbs. */
  lemma LeadingLimbs(s: seq<nat>, m: nat)
    requires Small(s) && m <= |s|
    ensures Value(s) == Value(s[..m]) * BPow(|s| - m) + Value(s[m..])
    ensures Value(s[m..]) < BPow(|s| - m)
    ensures Value(s) / BPow(|s| - m) == Value(s[..m]) && Value(s) % BPow(|s| - m) == Value(s[m..])
  {
    assert s == s[..m] + s[m..];
    ValueSplit(s[..m], s[m..]);
    ValueBound(s[m..]);
    DivideBy(Value(s), BPow(|s| - m), Value(s[..m]), Value(s[m..]));
  }

  /** Adding to one digit adds that many of its units. */
  lemma AddAt(s: seq<nat>, k: nat, x: nat)
    requires k < |s|
    ensures Value(s[k := s[k] + x]) == Value(s) + x * BPow(|s| - 1 - k)
  {
    hide Value, BPow;
    var head, tail := s[..k], s[k + 1..];
    assert s == head + [s[k]] + tail && s[k := s[k] + x] == head + [s[k] + x] + tail;
    ValueSplit(head + [s[k]], tail);
    ValueSplit(head + [s[k] + x], tail);
    ValueSnoc(head, s[k]);
    ValueSnoc(head, s[k] + x);
    Distribute(Value(head) * BASE + s[k], x, BPow(|tail|));
  }

  /** Zero limbs are worth nothing. */
  lemma {:induction false} ZeroValue(s: seq<nat>)
    requires forall i :: 0 <= i < |s| ==> s[i] == 0
    ensures Value(s) == 0
  {
    if s != [] {
      ZeroValue(s[..|s| - 1]);
    }
  }

  lemma {:induction false} ZeroLimbs(s: seq<nat>)
    requires Value(s) == 0
    ensures forall i :: 0 <= i < |s| ==> s[i] == 0
  {
    if s != [] {
      var u := s[..|s| - 1];
      assert Value(u) == 0 && s[|s| - 1] == 0;
      ZeroLimbs(u);
      assert s == u + [0];
    }
  }
}
