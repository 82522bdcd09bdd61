/** Numbers as bytes, lowest first, as the assembler writes data and floating-point constants. */
module LittleEndian {
  import opened Common
  import opened Powers

  /** A value as `n` bytes, lowest first. */
  function Little(v: nat, n: nat): (r: seq<Byte>)
    ensures |r| == n
  {
    if n == 0 then [] else [v % 256] + Little(v / 256, n - 1)
  }

  function FromLittle(s: seq<Byte>): nat {
    if s == [] then 0 else s[0] + 256 * FromLittle(s[1..])
  }

  function Capacity(n: nat): (p: nat)
    ensures p > 0
  {
    if n == 0 then 1 else 256 * Capacity(n - 1)
  }

  /** The bytes of a number give it back, cut to their width. */
  lemma {:induction false} LittleRoundTrip(v: nat, n: nat)
    ensures FromLittle(Little(v, n)) < Capacity(n) && exists q: nat :: v == FromLittle(Little(v, n)) + Capacity(n) * q
  {
    if n == 0 {
      assert v == 0 + Capacity(0) * v;
    } else {
      LittleRoundTrip(v / 256, n - 1);
      var low, p := FromLittle(Little(v / 256, n - 1)), Capacity(n - 1);
      var q: nat :| v / 256 == low + p * q;
      assert Little(v, n)[1..] == Little(v / 256, n - 1);
      assert 256 * (p * q) == (256 * p) * q;
      assert v == FromLittle(Little(v, n)) + Capacity(n) * q;
    }
  }

  /** A number that its bytes can hold is given back by them. */
  lemma LittleExact(v: nat, n: nat)
    requires v < Capacity(n)
    ensures FromLittle(Little(v, n)) == v
  {
    LittleRoundTrip(v, n);
    var q: nat :| v == FromLittle(Little(v, n)) + Capacity(n) * q;
    if q > 0 {
      Scale(1, q, Capacity(n));
      Commute(q, Capacity(n));
    }
  }

  lemma {:induction false} CapacityIs(n: nat)
    ensures Capacity(n) == Pow2(8 * n)
  {
    if n > 0 {
      CapacityIs(n - 1);
      WordPowers();
      Pow2Adds(8, 8 * (n - 1));
    }
  }
}
