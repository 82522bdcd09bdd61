/**
 The heap of sync points of the disassembler (asm/dasm-sync.cpp).

 Entries are numbered from 1, as in the source; entry `i` is `synx[i - 1]`.
 */
module SyncHeap {

  const WRAP: int := 0x1_0000_0000

  type Word32 = x: int | 0 <= x < 0x1_0000_0000

  datatype Sync = Sync(pos: Word32, length: Word32)

  /** The position after the range, in 32 bits. */
  function End(s: Sync): (e: Word32)
    ensures e == s.pos + s.length || e == s.pos + s.length - 0x1_0000_0000
  {
    (s.pos + s.length) % WRAP
  }

  /** Entry `i` of the heap. */
  function Entry(h: seq<Sync>, i: nat): Sync
    requires 1 <= i <= |h|
  {
    h[i - 1]
  }

  /** The parent of `k` is not after `k`. */
  ghost predicate EdgeHolds(h: seq<Sync>, k: nat)
    requires 2 <= k <= |h|
  {
    Entry(h, k / 2).pos <= Entry(h, k).pos
  }

  /** Every entry but `hole` is at or after its parent. */
  ghost predicate OrderedExcept(h: seq<Sync>, hole: nat) {
    forall k :: 2 <= k <= |h| && k != hole ==> EdgeHolds(h, k)
  }

  ghost predicate Ordered(h: seq<Sync>) {
    forall k :: 2 <= k <= |h| ==> EdgeHolds(h, k)
  }

  function Swap(h: seq<Sync>, i: nat, j: nat): (r: seq<Sync>)
    requires 1 <= i <= |h| && 1 <= j <= |h|
    ensures |r| == |h|
  {
    h[i - 1 := h[j - 1]][j - 1 := h[i - 1]]
  }

  lemma SwapKeeps(h: seq<Sync>, i: nat, j: nat)
    requires 1 <= i <= |h| && 1 <= j <= |h|
    ensures multiset(Swap(h, i, j)) == multiset(h)
  {
  }

  /** The first entry has the least position. */
  lemma {:induction false} RootIsLeast(h: seq<Sync>, k: nat)
    requires Ordered(h) && 1 <= k <= |h|
    ensures Entry(h, 1).pos <= Entry(h, k).pos
  {
    if k > 1 {
      assert EdgeHolds(h, k);
      RootIsLeast(h, k / 2);
    }
  }

  // ---------- One step up and one step down ----------

  /** Up: only entry `i` may be before its parent, and its children are at or after that parent. */
  ghost predicate Rising(h: seq<Sync>, i: nat)
    requires 1 <= i <= |h|
  {
    && OrderedExcept(h, i)
    && forall c :: 2 <= c <= |h| && c / 2 == i && i > 1 ==> Entry(h, i / 2).pos <= Entry(h, c).pos
  }

  lemma RiseStep(h: seq<Sync>, i: nat)
    requires 2 <= i <= |h| && Rising(h, i)
    ensures EdgeHolds(h, i) ==> Ordered(h) && Rising(h, i / 2)
    ensures !EdgeHolds(h, i) ==> Rising(Swap(h, i / 2, i), i / 2)
  {
    var up := i / 2;
    if EdgeHolds(h, i) {
      forall c | 2 <= c <= |h| && c / 2 == up && up > 1
        ensures Entry(h, up / 2).pos <= Entry(h, c).pos
      {
        assert EdgeHolds(h, up) && EdgeHolds(h, c);
      }
    } else {
      var r := Swap(h, up, i);
      forall k | 2 <= k <= |r| && k != up
        ensures EdgeHolds(r, k)
      {
        assert k != i ==> EdgeHolds(h, k);
        if k / 2 == i {
        } else if k / 2 == up {
        }
      }
      forall c | 2 <= c <= |r| && c / 2 == up && up > 1
        ensures Entry(r, up / 2).pos <= Entry(r, c).pos
      {
        assert EdgeHolds(h, up);
        assert c != i ==> EdgeHolds(h, c);
      }
    }
  }

  lemma Appended(h: seq<Sync>, s: Sync)
    requires Ordered(h)
    ensures Rising(h + [s], |h| + 1)
  {
    var r := h + [s];
    forall k | 2 <= k <= |r| && k != |r|
      ensures EdgeHolds(r, k)
    {
      assert EdgeHolds(h, k);
    }
  }

  /** Down: only the children of entry `i` may be before it, and they are at or after its parent. */
  ghost predicate Sinking(h: seq<Sync>, i: nat)
    requires 1 <= i <= |h|
  {
    && (forall k :: 2 <= k <= |h| && k / 2 != i ==> EdgeHolds(h, k))
    && forall c :: 2 <= c <= |h| && c / 2 == i && i > 1 ==> Entry(h, i / 2).pos <= Entry(h, c).pos
  }

  /** Entry `j` may take the place of its parent `i`: it is before it and no other child is before it. */
  ghost predicate MayRise(h: seq<Sync>, i: nat, j: nat)
    requires 1 <= i <= |h| && 1 <= j <= |h|
  {
    j / 2 == i && Entry(h, j).pos < Entry(h, i).pos && forall c :: 2 <= c <= |h| && c / 2 == i ==>
      Entry(h, j).pos <= Entry(h, c).pos
  }

  lemma SinkStep(h: seq<Sync>, i: nat, j: nat)
    requires 1 <= i <= |h| && 2 <= j <= |h| && Sinking(h, i) && MayRise(h, i, j)
    ensures Sinking(Swap(h, i, j), j)
  {
    var r := Swap(h, i, j);
    forall k | 2 <= k <= |r| && k / 2 != j
      ensures EdgeHolds(r, k)
    {
      if k == i {
        assert Entry(h, i / 2).pos <= Entry(h, j).pos;
      } else if k / 2 == i {
        assert Entry(h, j).pos <= Entry(h, k).pos;
        assert Entry(r, i) == Entry(h, j) && Entry(r, j) == Entry(h, i);
        assert k != j ==> Entry(r, k) == Entry(h, k);
      } else {
        assert EdgeHolds(h, k);
      }
    }
    forall c | 2 <= c <= |r| && c / 2 == j
      ensures Entry(r, j / 2).pos <= Entry(r, c).pos
    {
      assert EdgeHolds(h, c);
    }
  }

  lemma SinkEnd(h: seq<Sync>, i: nat)
    requires 1 <= i <= |h| && Sinking(h, i)
    requires forall c :: 2 <= c <= |h| && c / 2 == i ==> Entry(h, i).pos <= Entry(h, c).pos
    ensures Ordered(h)
  {
  }

  // ---------- Sync points ----------

  /** An entry whose range is over at `position`. */
  predicate Past(s: Sync, position: Word32) {
    End(s) <= position
  }

  /** An entry that began before `position` and is not over there. */
  predicate Straddles(s: Sync, position: Word32) {
    s.pos < position < End(s)
  }

  /** Nothing in `s` is before the first entry of `h`. */
  ghost predicate NoneBefore(h: seq<Sync>, first: Word32) {
    forall s :: s in h ==> first <= s.pos
  }

  lemma RootBeforeAll(h: seq<Sync>)
    requires Ordered(h) && h != []
    ensures NoneBefore(h, Entry(h, 1).pos)
  {
    forall s | s in h
      ensures Entry(h, 1).pos <= s.pos
    {
      var i :| 0 <= i < |h| && h[i] == s;
      RootIsLeast(h, i + 1);
    }
  }

  /** The entry to show: the first one, or an empty range at 0. */
  function First(h: seq<Sync>): Sync {
    if h == [] then Sync(0, 0) else Entry(h, 1)
  }

  // ---------- Adding and removing as functions ----------

  /** Entry `i` after it has changed places with every parent that is after it. */
  function Risen(h: seq<Sync>, i: nat): (r: seq<Sync>)
    requires 1 <= i <= |h|
    ensures |r| == |h|
    decreases i
  {
    if i == 1 then h
    else Risen(if Entry(h, i / 2).pos > Entry(h, i).pos then Swap(h, i / 2, i) else h, i / 2)
  }

  /** `add_sync` */
  function Inserted(h: seq<Sync>, s: Sync): (r: seq<Sync>)
    ensures |r| == |h| + 1
  {
    Risen(h + [s], |h| + 1)
  }

  /** The child that takes the place of entry `i`, or 0. */
  function Successor(h: seq<Sync>, i: nat): (j: nat)
    requires 1 <= i <= |h|
    ensures j != 0 ==> 2 <= j <= |h| && j / 2 == i
  {
    var j, n := i * 2, |h|;
    if j > n then 0
    else if Entry(h, j).pos < Entry(h, i).pos && (j + 1 > n || Entry(h, j + 1).pos > Entry(h, j).pos) then j
    else if j + 1 <= n && Entry(h, j + 1).pos < Entry(h, i).pos then j + 1
    else 0
  }

  function Sunken(h: seq<Sync>, i: nat): (r: seq<Sync>)
    requires 1 <= i <= |h|
    ensures |r| == |h|
    decreases |h| - i
  {
    var j := Successor(h, i);
    if j == 0 then h else Sunken(Swap(h, i, j), j)
  }

  /** Without the first entry: the last one takes its place and sinks. */
  function Removed(h: seq<Sync>): (r: seq<Sync>)
    requires h != []
    ensures |r| == |h| - 1
  {
    var r := Swap(h, 1, |h|)[..|h| - 1];
    if r == [] then [] else Sunken(r, 1)
  }

  /** What `next_sync` leaves. */
  function Pending(h: seq<Sync>, position: Word32): (r: seq<Sync>)
    ensures |r| <= |h|
    decreases |h|
  {
    if h != [] && Past(Entry(h, 1), position) then Pending(Removed(h), position) else h
  }

  lemma {:induction false} RisenIsOrdered(h: seq<Sync>, i: nat)
    requires 1 <= i <= |h| && Rising(h, i)
    ensures Ordered(Risen(h, i)) && multiset(Risen(h, i)) == multiset(h)
    decreases i
  {
    if i > 1 {
      RiseStep(h, i);
      SwapKeeps(h, i / 2, i);
      RisenIsOrdered(if Entry(h, i / 2).pos > Entry(h, i).pos then Swap(h, i / 2, i) else h, i / 2);
    }
  }

  lemma InsertedIsOrdered(h: seq<Sync>, s: Sync)
    requires Ordered(h)
    ensures Ordered(Inserted(h, s)) && multiset(Inserted(h, s)) == multiset(h) + multiset{s}
  {
    Appended(h, s);
    RisenIsOrdered(h + [s], |h| + 1);
  }

  lemma {:induction false} RisenFirst(h: seq<Sync>, i: nat)
    requires 1 <= i <= |h| && Rising(h, i)
    ensures First(Risen(h, i)) == if Entry(h, 1).pos <= Entry(h, i).pos then Entry(h, 1) else Entry(h, i)
    decreases i
  {
    if i > 1 {
      RiseStep(h, i);
      if EdgeHolds(h, i) {
        RootIsLeast(h, i / 2);
        RisenFirst(h, i / 2);
      } else {
        RisenFirst(Swap(h, i / 2, i), i / 2);
      }
    }
  }

  /** A new entry comes first only if it is before the first. */
  lemma InsertedFirst(h: seq<Sync>, s: Sync)
    requires Ordered(h)
    ensures First(Inserted(h, s)) == if h != [] && First(h).pos <= s.pos then First(h) else s
  {
    Appended(h, s);
    RisenFirst(h + [s], |h| + 1);
  }

  lemma SuccessorIsLeast(h: seq<Sync>, i: nat)
    requires 1 <= i <= |h|
    ensures Successor(h, i) != 0 ==> MayRise(h, i, Successor(h, i))
    ensures Successor(h, i) == 0 ==> forall c :: 2 <= c <= |h| && c / 2 == i ==> Entry(h, i).pos <= Entry(h, c).pos
  {
    assert forall c :: c / 2 == i <==> c == 2 * i || c == 2 * i + 1;
  }

  lemma {:induction false} SunkenIsOrdered(h: seq<Sync>, i: nat)
    requires 1 <= i <= |h| && Sinking(h, i)
    ensures Ordered(Sunken(h, i)) && multiset(Sunken(h, i)) == multiset(h)
    decreases |h| - i
  {
    SuccessorIsLeast(h, i);
    var j := Successor(h, i);
    if j == 0 {
      SinkEnd(h, i);
    } else {
      SinkStep(h, i, j);
      SwapKeeps(h, i, j);
      SunkenIsOrdered(Swap(h, i, j), j);
    }
  }

  lemma RemovedIsOrdered(h: seq<Sync>)
    requires Ordered(h) && h != []
    ensures Ordered(Removed(h)) && multiset(Removed(h)) + multiset{Entry(h, 1)} == multiset(h)
  {
    RemovedKeeps(h);
    if |h| > 1 {
      AfterRemoval(h);
      SunkenIsOrdered(Swap(h, 1, |h|)[..|h| - 1], 1);
    }
  }

  /** What `next_sync` takes out is over; what it leaves is a heap whose first entry is not over. */
  lemma {:induction false} PendingIs(h: seq<Sync>, position: Word32) returns (gone: seq<Sync>)
    requires Ordered(h)
    ensures Ordered(Pending(h, position))
    ensures multiset(gone) + multiset(Pending(h, position)) == multiset(h)
    ensures forall s :: s in gone ==> Past(s, position)
    ensures Pending(h, position) != [] ==> !Past(First(Pending(h, position)), position)
    ensures Pending(h, position) != [] ==> NoneBefore(Pending(h, position), First(Pending(h, position)).pos)
    decreases |h|
  {
    if h != [] && Past(Entry(h, 1), position) {
      RemovedIsOrdered(h);
      var rest := PendingIs(Removed(h), position);
      gone := [Entry(h, 1)] + rest;
    } else {
      gone := [];
      if h != [] {
        RootBeforeAll(h);
      }
    }
  }

  /** The first entry left lies at or after `position` exactly when no entry straddles it. */
  lemma PendingAhead(h: seq<Sync>, position: Word32)
    requires Ordered(h)
    ensures var r := Pending(h, position);
      (r == [] || First(r).pos >= position) <==> forall s :: s in h ==> !Straddles(s, position)
  {
    var r := Pending(h, position);
    var gone := PendingIs(h, position);
    Split(gone, r, h);
    if r != [] {
      assert First(r) in r;
    }
  }

  // ---------- The heap ----------

  class Heap {
    var synx: seq<Sync>
    var maxSynx: nat

    ghost predicate Valid()
      reads this
    {
      |synx| <= maxSynx && Ordered(synx)
    }

    /** `init_sync` */
    constructor ()
      ensures Valid() && synx == []
    {
      synx := [];
      maxSynx := 4095;
    }

    /** `add_sync` */
    method Add(pos: Word32, length: Word32)
      requires Valid()
      modifies this
      ensures Valid() && synx == Inserted(old(synx), Sync(pos, length))
      ensures multiset(synx) == old(multiset(synx)) + multiset{Sync(pos, length)}
    {
      InsertedIsOrdered(synx, Sync(pos, length));
      if |synx| >= maxSynx {
        maxSynx := maxSynx * 2 + 1;
      }
      synx := synx + [Sync(pos, length)];
      var i := |synx|;
      while i > 1
        invariant 1 <= i <= |synx| <= maxSynx
        invariant Risen(synx, i) == Inserted(old(synx), Sync(pos, length))
      {
        if Entry(synx, i / 2).pos > Entry(synx, i).pos {
          synx := Swap(synx, i / 2, i);
        }
        i := i / 2;
      }
    }

    /** Take the first entry out: the last one takes its place and sinks. */
    method RemoveFirst()
      requires Valid() && synx != []
      modifies this`synx
      ensures Valid() && synx == Removed(old(synx)) && |synx| == |old(synx)| - 1
      ensures multiset(synx) + multiset{old(Entry(synx, 1))} == old(multiset(synx))
    {
      RemovedIsOrdered(synx);
      var n := |synx|;
      synx := Swap(synx, 1, n)[..n - 1];
      n := n - 1;
      if n > 0 {
        Sink(n);
      }
    }

    method Sink(n: nat)
      requires n == |synx| >= 1
      modifies this`synx
      ensures synx == Sunken(old(synx), 1)
    {
      var i := 1;
      while i * 2 <= n
        invariant 1 <= i <= n == |synx|
        invariant Sunken(synx, i) == Sunken(old(synx), 1)
      {
        var j := i * 2;
        if Entry(synx, j).pos < Entry(synx, i).pos && (j + 1 > n || Entry(synx, j + 1).pos > Entry(synx, j).pos) {
          synx := Swap(synx, i, j);
          i := j;
        } else if j + 1 <= n && Entry(synx, j + 1).pos < Entry(synx, i).pos {
          synx := Swap(synx, i, j + 1);
          i := j + 1;
        } else {
          break;
        }
      }
    }

    /** `next_sync`: takes out, in order of position, the entries that are over, and shows the first one left.
        That one lies at or after `position` exactly when no entry straddles it. */
    method Next(position: Word32) returns (pos: Word32, length: Word32)
      requires Valid()
      modifies this`synx
      ensures Valid() && synx == Pending(old(synx), position) && Sync(pos, length) == First(synx)
      ensures multiset(synx) <= old(multiset(synx)) && forall s :: s in old(multiset(synx)) - multiset(synx) ==>
        Past(s, position)
      ensures synx != [] ==> !Past(First(synx), position) && NoneBefore(synx, pos)
      ensures (synx == [] || pos >= position) <==> forall s :: s in old(synx) ==> !Straddles(s, position)
    {
      ghost var gone := PendingIs(synx, position);
      PendingAhead(synx, position);
      Split(gone, Pending(synx, position), synx);
      while |synx| > 0 && End(Entry(synx, 1)) <= position
        invariant Valid() && Pending(synx, position) == Pending(old(synx), position)
        decreases |synx|
      {
        RemoveFirst();
      }
      if |synx| > 0 {
        pos, length := Entry(synx, 1).pos, Entry(synx, 1).length;
      } else {
        pos, length := 0, 0;
      }
    }
  }

  /** Parts whose multisets add up to a whole have its members between them. */
  lemma Split(a: seq<Sync>, b: seq<Sync>, whole: seq<Sync>)
    requires multiset(a) + multiset(b) == multiset(whole)
    ensures forall s :: s in whole <==> s in a || s in b
  {
    forall s
      ensures s in whole <==> s in a || s in b
    {
      assert s in whole <==> s in multiset(whole);
      assert s in a <==> s in multiset(a);
      assert s in b <==> s in multiset(b);
    }
  }

  lemma RemovedKeeps(h: seq<Sync>)
    requires h != []
    ensures multiset(Swap(h, 1, |h|)[..|h| - 1]) + multiset{Entry(h, 1)} == multiset(h)
  {
    var r := Swap(h, 1, |h|);
    SwapKeeps(h, 1, |h|);
    assert r == r[..|h| - 1] + [Entry(h, 1)];
  }

  lemma AfterRemoval(h: seq<Sync>)
    requires Ordered(h) && |h| > 1
    ensures Sinking(Swap(h, 1, |h|)[..|h| - 1], 1)
  {
    var r := Swap(h, 1, |h|)[..|h| - 1];
    forall k | 2 <= k <= |r| && k / 2 != 1
      ensures EdgeHolds(r, k)
    {
      assert EdgeHolds(h, k);
    }
  }
}
