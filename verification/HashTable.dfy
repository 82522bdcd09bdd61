/**
 The open-addressing hash table (asm/inc/hashtbl.hpp): find, then add at the place the find left,
 with a table that doubles when it is more than half full.

 It refines a finite map. Probing ends because an odd stride over a table whose size is a power of
 two visits every slot and the table is never full.
 */
module HashTable {
  import opened Powers

  datatype Node<D> = Empty | Used(hash: nat, key: string, data: D)

  // ---------- The probe sequence ----------

  /** hash & mask */
  function Start(h: nat, size: nat): nat
    requires size > 0
  {
    h % size
  }

  /** ((hash >> 32) & mask) | 1 */
  function Stride(h: nat, size: nat): nat
    requires size > 0
  {
    var x := (h / 0x1_0000_0000) % size;
    if x % 2 == 0 then x + 1 else x
  }

  /** The i-th slot that is looked at. */
  function Probe(h: nat, size: nat, i: nat): (p: nat)
    requires size > 0
    ensures p < size
  {
    (Start(h, size) + i * Stride(h, size)) % size
  }

  lemma NextProbe(h: nat, size: nat, i: nat)
    requires size > 0
    ensures Probe(h, size, i + 1) == (Probe(h, size, i) + Stride(h, size)) % size
    ensures Probe(h, size, 0) == h % size
  {
    var a, s := Start(h, size) + i * Stride(h, size), Stride(h, size);
    assert Start(h, size) + (i + 1) * s == a + s;
    ModAdds(a, s, size);
    ModSmall(h % size, size);
  }

  lemma ModSmall(a: nat, m: nat)
    requires a < m
    ensures a % m == a
  {
    QuotientIs(a, m, 0);
  }

  lemma ModAdds(a: nat, b: nat, m: nat)
    requires m > 0
    ensures (a + b) % m == (a % m + b) % m
  {
    var q, r := a / m, a % m;
    var q', r' := (r + b) / m, (r + b) % m;
    assert a == q * m + r && r + b == q' * m + r';
    assert a + b == (q + q') * m + r';
    QuotientIs(a + b, m, q + q');
  }

  lemma StrideIsOdd(h: nat, size: nat)
    requires size > 0
    ensures Stride(h, size) % 2 == 1
  {
  }

  /** If 2^k divides d times an odd number, it divides d. */
  lemma {:induction false} OddFactor(k: nat, d: nat, odd: nat, m: nat) returns (n: nat)
    requires odd % 2 == 1 && d * odd == m * Pow2(k)
    ensures d == n * Pow2(k)
  {
    if k == 0 {
      n := d;
    } else {
      var half := Pow2(k - 1);
      var e := HalvedFactor(d, odd, m, half, Pow2(k));
      n := OddFactor(k - 1, e, odd, m);
      DoubledFactor(n, half, Pow2(k));
    }
  }

  lemma HalvedFactor(d: nat, odd: nat, m: nat, half: nat, whole: nat) returns (e: nat)
    requires odd % 2 == 1 && whole == 2 * half && d * odd == m * whole
    ensures d == 2 * e && e * odd == m * half
  {
    DoubledFactor(m, half, whole);
    OddProduct(d, odd);
    e := d / 2;
    DoubledFactor(odd, e, d);
  }

  lemma DoubledFactor(m: nat, half: nat, whole: nat)
    requires whole == 2 * half
    ensures m * whole == 2 * (m * half) && whole * m == 2 * (half * m)
  {
  }

  lemma OddProduct(d: nat, odd: nat)
    requires odd % 2 == 1
    ensures (d * odd) % 2 == d % 2
  {
    var h := odd / 2;
    assert odd == 2 * h + 1;
    assert d * odd == 2 * (d * h) + d;
  }

  lemma SameRemainder(a: nat, b: nat, size: nat) returns (m: nat)
    requires size > 0 && a <= b && a % size == b % size
    ensures b - a == m * size
  {
    var q := b / size - a / size;
    assert b - a == q * size;
    PositiveFactor(q, size);
    m := q;
  }

  lemma PositiveFactor(q: int, size: nat)
    requires size > 0 && q * size >= 0
    ensures q >= 0
  {
  }

  lemma Gap(s: nat, t: nat, i: nat, j: nat)
    requires i < j
    ensures s + i * t <= s + j * t && (s + j * t) - (s + i * t) == (j - i) * t
  {
    assert j * t == i * t + (j - i) * t;
  }

  lemma MultipleIsLarge(n: nat, size: nat)
    ensures n == 0 || n * size >= size
  {
    if n >= 1 {
      Scale(1, n, size);
    }
  }

  lemma RemaindersDiffer(a: nat, b: nat, d: nat, t: nat, k: nat, size: nat)
    requires size == Pow2(k) && 0 < d < size && t % 2 == 1 && a <= b && b - a == d * t
    ensures a % size != b % size
  {
    if a % size == b % size {
      var m := SameRemainder(a, b, size);
      var n := OddFactor(k, d, t, m);
      MultipleIsLarge(n, size);
    }
  }

  /** The first 2^k probes of a table of size 2^k are all different. */
  lemma ProbesDiffer(h: nat, k: nat, size: nat, i: nat, j: nat)
    requires size == Pow2(k) && i < j < size
    ensures Probe(h, size, i) != Probe(h, size, j)
  {
    hide Pow2, Stride, Start;
    var s, t := Start(h, size), Stride(h, size);
    Gap(s, t, i, j);
    StrideIsOdd(h, size);
    RemaindersDiffer(s + i * t, s + j * t, j - i, t, k, size);
  }

  // ---------- Tables ----------

  /** The hash function and the form keys are compared in: as they are, or folded to one case. */
  datatype Hashing = Hashing(hash: string -> nat, canon: string -> string)

  function HashOf(f: Hashing, key: string): nat {
    f.hash(f.canon(key))
  }

  ghost function UsedSlots<D>(t: seq<Node<D>>): set<nat> {
    set s: nat | s < |t| && t[s].Used? :: s
  }

  /** Slot `s` is the `i`-th probe for hash `h`, and all probes before it are in use. */
  ghost predicate OnPath<D>(t: seq<Node<D>>, h: nat, s: nat, i: nat)
    requires |t| > 0
  {
    Probe(h, |t|, i) == s && forall j :: 0 <= j < i ==> t[Probe(h, |t|, j)].Used?
  }

  ghost predicate Placed<D>(t: seq<Node<D>>, s: nat)
    requires s < |t| && t[s].Used?
  {
    exists i: nat :: OnPath(t, t[s].hash, s, i)
  }

  /** Every entry carries its key's hash, can be reached by probing, and is the only one for its key. */
  ghost predicate Sound<D>(f: Hashing, t: seq<Node<D>>) {
    && (forall s :: 0 <= s < |t| && t[s].Used? ==> t[s].hash == HashOf(f, t[s].key) && Placed(t, s))
    && (forall s, r :: 0 <= s < r < |t| && t[s].Used? && t[r].Used? ==> f.canon(t[s].key) != f.canon(t[r].key))
  }

  /** The table holds exactly the bindings of `m`. */
  ghost predicate Holds<D>(f: Hashing, t: seq<Node<D>>, m: map<string, D>) {
    && (forall s :: 0 <= s < |t| && t[s].Used? ==> f.canon(t[s].key) in m && m[f.canon(t[s].key)] == t[s].data)
    && (forall k :: k in m ==> exists s :: 0 <= s < |t| && t[s].Used? && f.canon(t[s].key) == k)
  }

  /** A search for `key` that meets an empty slot after used slots for other keys has proved its absence. */
  lemma AbsentKey<D>(f: Hashing, t: seq<Node<D>>, key: string, i: nat, s: nat)
    requires |t| > 0 && Sound(f, t) && OnPath(t, HashOf(f, key), s, i) && t[s].Empty?
    requires forall j :: 0 <= j < i ==> f.canon(t[Probe(HashOf(f, key), |t|, j)].key) != f.canon(key)
    ensures forall r :: 0 <= r < |t| && t[r].Used? ==> f.canon(t[r].key) != f.canon(key)
  {
  }

  lemma OneSlotPerKey<D>(f: Hashing, t: seq<Node<D>>, s: nat, r: nat)
    requires Sound(f, t) && s < |t| && r < |t| && t[s].Used? && t[r].Used? && f.canon(t[s].key) == f.canon(t[r].key)
    ensures s == r
  {
  }

  /** Filling the slot a search ended in keeps the table sound. */
  lemma FillSlot<D>(f: Hashing, t: seq<Node<D>>, key: string, data: D, i: nat, s: nat, t': seq<Node<D>>)
    requires |t| > 0 && Sound(f, t) && OnPath(t, HashOf(f, key), s, i) && t[s].Empty?
    requires forall r :: 0 <= r < |t| && t[r].Used? ==> f.canon(t[r].key) != f.canon(key)
    requires t' == t[s := Used(HashOf(f, key), key, data)]
    ensures Sound(f, t')
    ensures UsedSlots(t') == UsedSlots(t) + {s} && s !in UsedSlots(t)
  {
    forall r | 0 <= r < |t'| && t'[r].Used?
      ensures t'[r].hash == HashOf(f, t'[r].key) && Placed(t', r)
    {
      if r == s {
        PathKept(t, t', t'[s].hash, s, i);
      } else {
        assert t'[r] == t[r];
        var n: nat :| OnPath(t, t[r].hash, r, n);
        PathKept(t, t', t[r].hash, r, n);
      }
    }
    FilledUsed(t, t', s);
    FilledDistinct(f, t, t', s);
  }

  lemma PathKept<D>(t: seq<Node<D>>, t': seq<Node<D>>, h: nat, s: nat, i: nat)
    requires |t| > 0 && |t'| == |t| && OnPath(t, h, s, i)
    requires forall r :: 0 <= r < |t| && t[r].Used? ==> t'[r].Used?
    ensures OnPath(t', h, s, i)
  {
  }

  lemma FilledUsed<D>(t: seq<Node<D>>, t': seq<Node<D>>, s: nat)
    requires s < |t| && t[s].Empty? && |t'| == |t| && t'[s].Used?
    requires forall r :: 0 <= r < |t| && r != s ==> t'[r] == t[r]
    ensures UsedSlots(t') == UsedSlots(t) + {s} && s !in UsedSlots(t)
  {
  }

  lemma FilledDistinct<D>(f: Hashing, t: seq<Node<D>>, t': seq<Node<D>>, s: nat)
    requires s < |t| && t[s].Empty? && |t'| == |t| && t'[s].Used? && Sound(f, t)
    requires forall r :: 0 <= r < |t| && r != s ==> t'[r] == t[r]
    requires forall r :: 0 <= r < |t| && t[r].Used? ==> f.canon(t[r].key) != f.canon(t'[s].key)
    ensures forall q, r :: 0 <= q < r < |t'| && t'[q].Used? && t'[r].Used? ==> f.canon(t'[q].key) != f.canon(t'[r].key)
  {
  }

  lemma FilledHolds<D>(f: Hashing, t: seq<Node<D>>, m: map<string, D>, key: string, data: D, s: nat, t': seq<Node<D>>)
    requires Holds(f, t, m) && s < |t| && t[s].Empty? && f.canon(key) !in m
    requires t' == t[s := Used(HashOf(f, key), key, data)]
    ensures Holds(f, t', m[f.canon(key) := data])
  {
    var m' := m[f.canon(key) := data];
    forall k | k in m'
      ensures exists r :: 0 <= r < |t'| && t'[r].Used? && f.canon(t'[r].key) == k
    {
      if k == f.canon(key) {
        assert t'[s].Used?;
      } else {
        var r :| 0 <= r < |t| && t[r].Used? && f.canon(t[r].key) == k;
        assert t'[r].Used?;
      }
    }
  }

  ghost predicate IsPowerOfTwo(n: nat) {
    exists k: nat :: n == Pow2(k)
  }

  // ---------- Probing ends ----------

  ghost function Visited(h: nat, size: nat, i: nat): set<nat>
    requires size > 0
  {
    if i == 0 then {} else Visited(h, size, i - 1) + {Probe(h, size, i - 1)}
  }

  lemma {:induction false} VisitedMember(h: nat, size: nat, i: nat, s: nat)
    requires size > 0 && s in Visited(h, size, i)
    ensures exists j :: 0 <= j < i && Probe(h, size, j) == s
  {
    if s != Probe(h, size, i - 1) {
      VisitedMember(h, size, i - 1, s);
    }
  }

  lemma {:induction false} VisitedSize(h: nat, size: nat, i: nat)
    requires IsPowerOfTwo(size) && i <= size
    ensures |Visited(h, size, i)| == i
  {
    if i > 0 {
      VisitedSize(h, size, i - 1);
      if Probe(h, size, i - 1) in Visited(h, size, i - 1) {
        VisitedMember(h, size, i - 1, Probe(h, size, i - 1));
        var j :| 0 <= j < i - 1 && Probe(h, size, j) == Probe(h, size, i - 1);
        var k: nat :| size == Pow2(k);
        ProbesDiffer(h, k, size, j, i - 1);
      }
    }
  }

  /** A run of probes over used slots is no longer than the number of used slots. */
  lemma ProbesFit<D>(t: seq<Node<D>>, h: nat, i: nat)
    requires IsPowerOfTwo(|t|) && i <= |t|
    requires forall j :: 0 <= j < i ==> t[Probe(h, |t|, j)].Used?
    ensures i <= |UsedSlots(t)|
  {
    VisitedSize(h, |t|, i);
    forall s | s in Visited(h, |t|, i)
      ensures s in UsedSlots(t)
    {
      VisitedMember(h, |t|, i, s);
    }
    SubsetSize(Visited(h, |t|, i), UsedSlots(t));
  }

  lemma SubsetSize(a: set<nat>, b: set<nat>)
    requires a <= b
    ensures |a| <= |b|
  {
    assert b == a + (b - a);
  }

  // ---------- Moving entries to a larger table ----------

  /** The entries of `t` are those of the first `n` slots of `old`. */
  ghost predicate Moved<D>(was: seq<Node<D>>, n: nat, t: seq<Node<D>>)
    requires n <= |was|
  {
    && (forall s :: 0 <= s < n && was[s].Used? ==> was[s] in t)
    && (forall r :: 0 <= r < |t| && t[r].Used? ==> exists s :: 0 <= s < n && was[s] == t[r])
  }

  lemma MovedOne<D>(was: seq<Node<D>>, n: nat, t: seq<Node<D>>, pos: nat, t': seq<Node<D>>)
    requires n < |was| && was[n].Used? && Moved(was, n, t)
    requires pos < |t| && t[pos].Empty? && t' == t[pos := was[n]]
    ensures Moved(was, n + 1, t')
  {
    forall s | 0 <= s < n + 1 && was[s].Used?
      ensures was[s] in t'
    {
      if s == n {
        assert t'[pos] == was[n];
      } else {
        var r :| 0 <= r < |t| && t[r] == was[s];
        assert t'[r] == was[s];
      }
    }
  }

  lemma MovedNone<D>(was: seq<Node<D>>, n: nat, t: seq<Node<D>>)
    requires n < |was| && was[n].Empty? && Moved(was, n, t)
    ensures Moved(was, n + 1, t)
  {
  }

  lemma MovedHolds<D>(f: Hashing, was: seq<Node<D>>, t: seq<Node<D>>, m: map<string, D>)
    requires Moved(was, |was|, t) && Holds(f, was, m)
    ensures Holds(f, t, m)
  {
    forall k | k in m
      ensures exists r :: 0 <= r < |t| && t[r].Used? && f.canon(t[r].key) == k
    {
      var s :| 0 <= s < |was| && was[s].Used? && f.canon(was[s].key) == k;
      var r :| 0 <= r < |t| && t[r] == was[s];
    }
  }

  lemma UsedPrefix<D>(t: seq<Node<D>>, n: nat)
    requires n < |t|
    ensures UsedSlots(t[..n + 1]) == UsedSlots(t[..n]) + (if t[n].Used? then {n} else {})
    ensures n !in UsedSlots(t[..n])
  {
  }

  class Table<D> {
    const f: Hashing
    var table: array<Node<D>>
    var load: nat
    var size: nat
    var maxLoad: nat
    ghost var contents: map<string, D>

    ghost predicate Valid()
      reads this, table
    {
      && size == table.Length && IsPowerOfTwo(size)
      && load == |UsedSlots(table[..])| && maxLoad == size / 2 && load <= maxLoad
      && Sound(f, table[..]) && Holds(f, table[..], contents)
    }

    constructor (f: Hashing, size: nat)
      requires IsPowerOfTwo(size)
      ensures Valid() && contents == map[] && this.f == f && this.size == size && fresh(table)
    {
      this.f, this.size := f, size;
      this.table := new Node<D>[size](_ => Empty);
      this.load, this.maxLoad, this.contents := 0, size / 2, map[];
      new;
      assert UsedSlots(table[..]) == {};
    }

    /** What a find that fails leaves for `Add`: the empty slot at the end of the key's probes. */
    ghost predicate InsertPoint(key: string, slot: nat)
      reads this, table
    {
      && slot < table.Length && table[slot].Empty?
      && exists i: nat :: OnPath(table[..], HashOf(f, key), slot, i)
    }

    method Find(key: string) returns (found: bool, slot: nat)
      requires Valid()
      ensures found <==> f.canon(key) in contents
      ensures found ==> slot < size && table[slot].Used? && f.canon(table[slot].key) == f.canon(key)
                        && table[slot].data == contents[f.canon(key)]
      ensures found ==> forall r :: 0 <= r < size && table[r].Used? && f.canon(table[r].key) == f.canon(key) ==>
        r == slot
      ensures !found ==> InsertPoint(key, slot)
    {
      ghost var i;
      found, slot, i := Search(f, table, key);
      if found {
        assert table[..][slot] == table[slot];
        forall r | 0 <= r < size && table[r].Used? && f.canon(table[r].key) == f.canon(key)
          ensures r == slot
        {
          OneSlotPerKey(f, table[..], r, slot);
        }
      } else {
        AbsentKey(f, table[..], key, i, slot);
      }
    }

    /** The probe loop: up to the key's entry or the first empty slot. */
    static method Search(f: Hashing, t: array<Node<D>>, key: string) returns (found: bool, slot: nat, ghost i: nat)
      requires IsPowerOfTwo(t.Length) && |UsedSlots(t[..])| < t.Length
      requires forall s :: 0 <= s < t.Length && t[s].Used? ==> t[s].hash == HashOf(f, t[s].key)
      ensures slot < t.Length && OnPath(t[..], HashOf(f, key), slot, i)
      ensures forall j :: 0 <= j < i ==> f.canon(t[Probe(HashOf(f, key), t.Length, j)].key) != f.canon(key)
      ensures found ==> t[slot].Used? && f.canon(t[slot].key) == f.canon(key)
      ensures !found ==> t[slot].Empty?
    {
      var h, size := HashOf(f, key), t.Length;
      var inc := Stride(h, size);
      i := 0;
      NextProbe(h, size, 0);
      slot := h % size;
      while t[slot].Used?
        invariant slot == Probe(h, size, i) && i <= |UsedSlots(t[..])|
        invariant forall j :: 0 <= j < i ==> t[Probe(h, size, j)].Used?
        invariant forall j :: 0 <= j < i ==> f.canon(t[Probe(h, size, j)].key) != f.canon(key)
        decreases |UsedSlots(t[..])| - i
      {
        if t[slot].hash == h && f.canon(t[slot].key) == f.canon(key) {
          return true, slot, i;
        }
        ProbesFit(t[..], h, i + 1);
        NextProbe(h, size, i);
        i := i + 1;
        slot := (slot + inc) % size;
      }
      found := false;
    }

    /** Inserts at the place a failed find gave; the entry's slot afterwards. Every other entry keeps its slot unless
        the table grows. */
    method Add(key: string, slot: nat, data: D) returns (at: nat)
      requires Valid() && InsertPoint(key, slot) && f.canon(key) !in contents
      modifies this, table
      ensures Valid() && (table == old(table) || fresh(table))
      ensures contents == old(contents)[f.canon(key) := data]
      ensures at < size && table[at] == Used(HashOf(f, key), key, data)
      ensures old(load) < old(maxLoad) ==>
        && at == slot && table == old(table) && size == old(size)
        && table[..] == old(table[..])[slot := Used(HashOf(f, key), key, data)]
    {
      ghost var was := table[..];
      ghost var i: nat :| OnPath(was, HashOf(f, key), slot, i);
      table[slot] := Used(HashOf(f, key), key, data);
      assert table[..] == was[slot := Used(HashOf(f, key), key, data)];
      FillSlot(f, was, key, data, i, slot, table[..]);
      FilledHolds(f, was, contents, key, data, slot, table[..]);
      contents := contents[f.canon(key) := data];
      load := load + 1;
      at := slot;
      if load > maxLoad {
        at := Grow(slot);
      }
    }

    /** Find, and add if it is not there: the slot returned is the one any later find of the key returns. */
    method FindOrAdd(key: string, data: D) returns (slot: nat, again: nat)
      requires Valid()
      modifies this, table
      ensures Valid() && (table == old(table) || fresh(table))
      ensures contents == if f.canon(key) in old(contents) then old(contents) else old(contents)[f.canon(key) := data]
      ensures slot < size && table[slot].Used? && table[slot].data == contents[f.canon(key)] && again == slot
    {
      var found;
      found, slot := Find(key);
      if !found {
        slot := Add(key, slot, data);
      }
      found, again := Find(key);
      OneSlotPerKey(f, table[..], slot, again);
    }

    /** A key that was found is found in the same slot after another one is added, unless that makes the table grow. */
    method FindAddFind(key: string, other: string, data: D) returns (was: nat, now: nat)
      requires Valid() && f.canon(key) in contents && f.canon(other) !in contents
      modifies this, table
      ensures now < table.Length && table[now].Used? && f.canon(table[now].key) == f.canon(key)
      ensures Valid() && contents == old(contents)[f.canon(other) := data]
      ensures old(load) < old(maxLoad) ==> now == was
    {
      hide Sound, Holds, UsedSlots, IsPowerOfTwo, OnPath, HashOf;
      var found, slot;
      found, was := Find(key);
      found, slot := Find(other);
      ghost var before, place := table[..], slot;
      slot := Add(other, slot, data);
      assert old(load) < old(maxLoad) ==> table[..][was] == before[was];
      found, now := Find(key);
    }

    /** The first empty slot for a hash. */
    static method FirstEmpty(t: array<Node<D>>, h: nat) returns (pos: nat, ghost i: nat)
      requires IsPowerOfTwo(t.Length) && |UsedSlots(t[..])| < t.Length
      ensures pos < t.Length && t[pos].Empty? && OnPath(t[..], h, pos, i)
    {
      var size := t.Length;
      var inc := Stride(h, size);
      i := 0;
      NextProbe(h, size, 0);
      pos := h % size;
      while t[pos].Used?
        invariant pos == Probe(h, size, i) && i <= |UsedSlots(t[..])|
        invariant forall j :: 0 <= j < i ==> t[Probe(h, size, j)].Used?
        decreases |UsedSlots(t[..])| - i
      {
        ProbesFit(t[..], h, i + 1);
        NextProbe(h, size, i);
        i := i + 1;
        pos := (pos + inc) % size;
      }
    }

    /** Puts one entry of the old table into the first empty slot for its hash. */
    static method PutAgain(f: Hashing, t: array<Node<D>>, ghost was: seq<Node<D>>, ghost n: nat, node: Node<D>)
      returns (pos: nat)
      requires n < |was| && node == was[n] && node.Used? && Sound(f, was) && Sound(f, t[..]) && Moved(was, n, t[..])
      requires IsPowerOfTwo(t.Length) && |UsedSlots(t[..])| < t.Length
      modifies t
      ensures Sound(f, t[..]) && Moved(was, n + 1, t[..])
      ensures pos < t.Length && t[..] == old(t[..])[pos := node] && old(t[pos]).Empty?
      ensures |UsedSlots(t[..])| == |UsedSlots(old(t[..]))| + 1
    {
      ghost var before := t[..];
      ghost var i;
      pos, i := FirstEmpty(t, node.hash);
      t[pos] := node;
      assert t[..] == before[pos := node];
      assert forall r :: 0 <= r < |before| && before[r].Used? ==> f.canon(before[r].key) != f.canon(node.key);
      FillSlot(f, before, node.key, node.data, i, pos, t[..]);
      MovedOne(was, n, before, pos, t[..]);
    }

    /** Doubles the table and puts every entry in again, following the one in `slot`. */
    method Grow(slot: nat) returns (at: nat)
      requires size == table.Length && IsPowerOfTwo(size) && slot < size && table[slot].Used?
      requires load == |UsedSlots(table[..])| && load <= size
      requires Sound(f, table[..]) && Holds(f, table[..], contents)
      modifies this`table, this`size, this`maxLoad
      ensures Valid() && fresh(table) && at < size && table[at] == old(table[slot])
    {
      var t;
      t, at := Doubled(slot);
      table := t;
      size := 2 * size;
      maxLoad := size / 2;
    }

    method Doubled(slot: nat) returns (t: array<Node<D>>, at: nat)
      requires size == table.Length && IsPowerOfTwo(size) && slot < size && table[slot].Used?
      requires Sound(f, table[..]) && Holds(f, table[..], contents)
      ensures fresh(t) && t.Length == 2 * size && IsPowerOfTwo(t.Length)
      ensures Sound(f, t[..]) && Holds(f, t[..], contents) && |UsedSlots(t[..])| == |UsedSlots(table[..])|
      ensures at < t.Length && t[at] == table[slot]
    {
      ghost var k: nat :| size == Pow2(k);
      assert 2 * size == Pow2(k + 1);
      t := new Node<D>[2 * size](_ => Empty);
      at := MoveAll(f, table, t, slot);
      MovedHolds(f, table[..], t[..], contents);
    }

    /** One turn of the rebalancing loop; `at` follows the entry that was in `slot`. */
    static method MoveOne(f: Hashing, t: array<Node<D>>, ghost was: seq<Node<D>>, n: nat, node: Node<D>, slot: nat,
                          at: nat)
      returns (at': nat)
      requires n < |was| && node == was[n] && slot < |was| && Sound(f, was) && Sound(f, t[..]) && Moved(was, n, t[..])
      requires IsPowerOfTwo(t.Length) && |UsedSlots(t[..])| == |UsedSlots(was[..n])| < t.Length
      requires slot < n && was[slot].Used? ==> at < t.Length && t[at] == was[slot]
      modifies t
      ensures Sound(f, t[..]) && Moved(was, n + 1, t[..])
      ensures |UsedSlots(t[..])| == |UsedSlots(was[..n + 1])| <= |UsedSlots(was[..n])| + 1
      ensures slot < n + 1 && was[slot].Used? ==> at' < t.Length && t[at'] == was[slot]
    {
      UsedPrefix(was, n);
      at' := at;
      if node.Used? {
        var pos := PutAgain(f, t, was, n, node);
        if n == slot {
          at' := pos;
        }
      } else {
        MovedNone(was, n, t[..]);
      }
    }

    /** The rebalancing loop, over an empty table of twice the size. */
    static method MoveAll(f: Hashing, src: array<Node<D>>, t: array<Node<D>>, slot: nat) returns (at: nat)
      requires src != t && t.Length == 2 * src.Length && IsPowerOfTwo(t.Length) && Sound(f, src[..])
      requires slot < src.Length && forall s :: 0 <= s < t.Length ==> t[s].Empty?
      modifies t
      ensures Sound(f, t[..]) && Moved(src[..], src.Length, t[..])
      ensures |UsedSlots(t[..])| == |UsedSlots(src[..])|
      ensures src[slot].Used? ==> at < t.Length && t[at] == src[slot]
    {
      ghost var was := src[..];
      at := 0;
      assert UsedSlots(t[..]) == {} && UsedSlots(was[..0]) == {};
      for n := 0 to src.Length
        invariant src[..] == was
        invariant Sound(f, t[..]) && Moved(was, n, t[..])
        invariant |UsedSlots(t[..])| == |UsedSlots(was[..n])| <= n
        invariant slot < n && was[slot].Used? ==> at < t.Length && t[at] == was[slot]
      {
        at := MoveOne(f, t, was, n, src[n], slot, at);
      }
      assert was[..src.Length] == was;
    }
  }
}
