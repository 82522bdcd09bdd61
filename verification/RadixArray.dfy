/**
 The growing radix array (lib/c/strpage.c) and the running offset of each section kept in it
 (asm/aasm-assembler.cpp).

 Pages are heap objects linked by their branches. A directory from (level, page number) to page, kept beside them,
 says which pages there are; the links are proved to follow it.
 */
module RadixArray {
  import opened Common
  import opened Powers

  const SLOTS: nat := 4096

  /** Indices that the shifts of a 64-bit build can reach. */
  const LIMIT: nat := 0x1000_0000_0000_0000

  // ---------- Twelve bits at a time ----------

  function Power(k: nat): (p: nat)
    ensures p > 0
  {
    if k == 0 then 1 else SLOTS * Power(k - 1)
  }

  /** `i` without its last `k` groups of twelve bits. */
  function Shift(i: nat, k: nat): nat {
    if k == 0 then i else Shift(i, k - 1) / SLOTS
  }

  lemma {:induction false} ShiftIsQuotient(i: nat, k: nat) returns (rest: nat)
    ensures i == Shift(i, k) * Power(k) + rest && rest < Power(k)
  {
    if k == 0 {
      rest := 0;
    } else {
      var low := ShiftIsQuotient(i, k - 1);
      var above, slot, p := Shift(i, k), Shift(i, k - 1) % SLOTS, Power(k - 1);
      assert Shift(i, k - 1) == above * SLOTS + slot;
      rest := slot * p + low;
      Regroup(above, slot, p, low);
    }
  }

  lemma Regroup(above: nat, slot: nat, p: nat, low: nat)
    requires slot < SLOTS && low < p
    ensures (above * SLOTS + slot) * p + low == above * (SLOTS * p) + (slot * p + low)
    ensures slot * p + low < SLOTS * p
  {
    Distribute(above * SLOTS, slot, p);
    Associate(above, SLOTS, p);
    Distribute(SLOTS - 1 - slot, slot, p);
    NotNegative(SLOTS - 1 - slot, p);
    assert (SLOTS - 1) * p == SLOTS * p - p;
  }

  lemma NextLevel(i: nat, k: nat)
    ensures Shift(i, k) == Shift(i, k + 1) * SLOTS + Shift(i, k) % SLOTS && Power(k + 1) == SLOTS * Power(k)
  {
  }

  /** The slot and the rest that the masked index gives at level `k`. */
  lemma SlotOf(i: nat, k: nat)
    ensures (i % Power(k + 1)) / Power(k) == Shift(i, k) % SLOTS
    ensures (i % Power(k + 1)) % Power(k) == i % Power(k)
  {
    hide Shift, Power;
    var low := ShiftIsQuotient(i, k);
    var above, slot, p := Shift(i, k + 1), Shift(i, k) % SLOTS, Power(k);
    NextLevel(i, k);
    Regroup(above, slot, p, low);
    DivideBy(i, p, Shift(i, k), low);
    DivideBy(i, Power(k + 1), above, slot * p + low);
    DivideBy(slot * p + low, p, slot, low);
  }

  /** An index is covered exactly when its groups above the top level are zero. */
  lemma Covered(i: nat, k: nat)
    ensures i < Power(k) <==> Shift(i, k) == 0
  {
    var rest := ShiftIsQuotient(i, k);
    if Shift(i, k) > 0 {
      assert Shift(i, k) * Power(k) >= Power(k);
    }
  }

  lemma SmallRest(i: nat, p: nat)
    requires i < p
    ensures i % p == i
  {
    DivideBy(i, p, 0, i);
  }

  /** The masked index: the last `k` groups of `i`. */
  function Low(i: nat, k: nat): nat {
    i % Power(k)
  }

  lemma FiveLevels()
    ensures Power(5) == LIMIT
  {
    assert Power(1) == SLOTS * Power(0);
    assert Power(2) == SLOTS * Power(1);
    assert Power(3) == SLOTS * Power(2);
    assert Power(4) == SLOTS * Power(3);
    assert Power(5) == SLOTS * Power(4);
  }

  // ---------- Pages ----------

  class Page {
    const level: nat
    var leaves: seq<Word>
    var branches: seq<Page?>

    /** `StrpageSetup` */
    constructor (level: nat)
      ensures this.level == level && |leaves| == |branches| == SLOTS
      ensures forall j :: 0 <= j < SLOTS ==> leaves[j] == 0
      ensures forall j :: 0 <= j < SLOTS ==> branches[j] == null
    {
      this.level := level;
      leaves := seq(SLOTS, j => 0);
      branches := seq(SLOTS, j => null);
    }
  }

  datatype Key = Key(level: nat, number: nat)

  /** The page that holds index `i` at a level. */
  function KeyOf(i: nat, level: nat): Key {
    Key(level, Shift(i, level + 1))
  }

  function ChildKey(k: Key, j: nat): Key
    requires k.level > 0
  {
    Key(k.level - 1, k.number * SLOTS + j)
  }

  function ParentKey(k: Key): Key {
    Key(k.level + 1, k.number / SLOTS)
  }

  /** Every page but the top one has its parent, and the top one is alone on its level. */
  ghost predicate Rooted(keys: set<Key>, top: nat) {
    && Key(top, 0) in keys
    && (forall k :: k in keys ==> k.level <= top && (k.level == top ==> k.number == 0))
    && (forall k :: k in keys && k.level < top ==> ParentKey(k) in keys)
  }

  /** With a page there are all the pages above it. */
  lemma {:induction false} PagesAbove(keys: set<Key>, top: nat, i: nat, low: nat, high: nat)
    requires Rooted(keys, top) && low <= high <= top && KeyOf(i, low) in keys
    ensures KeyOf(i, high) in keys
    decreases high
  {
    if low < high {
      PagesAbove(keys, top, i, low, high - 1);
      assert ParentKey(KeyOf(i, high - 1)) == KeyOf(i, high);
    }
  }

  /** An index with a page is covered by the top page. */
  lemma PageIsCovered(keys: set<Key>, top: nat, i: nat)
    requires Rooted(keys, top) && KeyOf(i, 0) in keys
    ensures i < Power(top + 1)
  {
    PagesAbove(keys, top, i, 0, top);
    Covered(i, top + 1);
  }

  /** On the way down to index `i`, the slot leads to its page one level lower. */
  lemma SlotLeads(i: nat, level: nat)
    requires level > 0
    ensures ChildKey(KeyOf(i, level), Shift(i, level) % SLOTS) == KeyOf(i, level - 1)
  {
  }

  ghost function Linked(pages: map<Key, Page>, k: Key): Page? {
    if k in pages then pages[k] else null
  }

  /** The branches of page `k` are the pages below it. */
  ghost predicate BranchesFit(pages: map<Key, Page>, k: Key, branches: seq<Page?>) {
    |branches| == SLOTS && (k.level > 0 ==> forall j :: 0 <= j < SLOTS ==> branches[j] == Linked(pages, ChildKey(k, j)))
  }

  class Array {
    var root: Page
    ghost var pages: map<Key, Page>

    ghost function Repr(): set<object>
      reads this
    {
      set k | k in pages :: pages[k]
    }

    /** Page `k` is on its level and its branches are the pages below it. */
    ghost predicate Fits(k: Key)
      reads this, Repr()
      requires k in pages
    {
      && pages[k].level == k.level && |pages[k].leaves| == |pages[k].branches| == SLOTS
      && BranchesFit(pages, k, pages[k].branches)
    }

    ghost predicate Valid()
      reads this, Repr()
    {
      && Rooted(pages.Keys, root.level) && root.level <= 4 && pages[Key(root.level, 0)] == root
      && (forall k :: k in pages ==> Fits(k))
      && (forall a, b :: a in pages && b in pages && pages[a] == pages[b] ==> a == b)
    }

    /** The value at an index: 0 where there is no page. */
    ghost function At(i: nat): Word
      reads this, Repr()
      requires Valid()
    {
      if KeyOf(i, 0) in pages then pages[KeyOf(i, 0)].leaves[i % SLOTS] else 0
    }

    /** `StrpageNew` */
    constructor ()
      ensures Valid() && fresh(Repr()) && forall i: nat :: At(i) == 0
    {
      var page := new Page(0);
      root := page;
      pages := map[Key(0, 0) := page];
    }

    /** One level down on the way to index `i`: the slot and the masked index. */
    method Slot(sp: Page, ghost i: nat, index: nat) returns (l: nat, rest: nat)
      requires index == Low(i, sp.level + 1) && sp.level > 0
      ensures l == Shift(i, sp.level) % SLOTS && rest == Low(i, sp.level)
    {
      SlotOf(i, sp.level);
      l := index / Power(sp.level);
      rest := index % Power(sp.level);
    }

    /** `sp` is the page of index `i` on its level. */
    ghost predicate Holds(sp: Page, i: nat)
      reads this
    {
      sp.level <= root.level && KeyOf(i, sp.level) in pages && pages[KeyOf(i, sp.level)] == sp
    }

    /** The branch at that slot is the page of `i` one level down. */
    lemma Branch(sp: Page, i: nat, l: nat)
      requires Valid() && sp.level > 0 && Holds(sp, i) && l == Shift(i, sp.level) % SLOTS
      ensures l < |sp.branches|
      ensures sp.branches[l] == null ==> KeyOf(i, sp.level - 1) !in pages
      ensures sp.branches[l] != null ==> sp.branches[l].level == sp.level - 1 && Holds(sp.branches[l], i)
    {
      hide Shift;
      SlotLeads(i, sp.level);
      assert Fits(KeyOf(i, sp.level));
      if KeyOf(i, sp.level - 1) in pages {
        assert Fits(KeyOf(i, sp.level - 1));
      }
    }

    /** Without a page of `i` on some level its value is 0. */
    lemma NoPage(i: nat, level: nat)
      requires Valid() && level <= root.level && KeyOf(i, level) !in pages
      ensures At(i) == 0
    {
      if KeyOf(i, 0) in pages {
        PagesAbove(pages.Keys, root.level, i, 0, level);
      }
    }

    lemma NotCovered(i: nat)
      requires Valid() && i >= Power(root.level + 1)
      ensures At(i) == 0
    {
      if KeyOf(i, 0) in pages {
        PageIsCovered(pages.Keys, root.level, i);
      }
    }

    lemma AtTop(i: nat)
      requires Valid() && i < Power(root.level + 1)
      ensures Holds(root, i) && Low(i, root.level + 1) == i
    {
      Covered(i, root.level + 1);
      SmallRest(i, Power(root.level + 1));
      hide Power, Shift;
    }

    lemma AtLeaf(sp: Page, i: nat)
      requires Valid() && Holds(sp, i) && sp.level == 0
      ensures Low(i, 1) < |sp.leaves| && sp.leaves[Low(i, 1)] == At(i)
    {
      assert Fits(KeyOf(i, 0));
    }

    /** `StrpageGet` */
    method Get(i: nat) returns (v: Word)
      requires Valid()
      ensures v == At(i)
    {
      hide Low, Shift, Rooted;
      hide Power;
      if i >= Power(root.level + 1) {
        NotCovered(i);
        return 0;
      }
      AtTop(i);
      var sp: Page, index := root, i;
      while sp.level > 0
        invariant Holds(sp, i) && sp.level <= root.level && index == Low(i, sp.level + 1)
        decreases sp.level
      {
        var l, rest := Slot(sp, i, index);
        Branch(sp, i, l);
        if sp.branches[l] == null {
          NoPage(i, sp.level - 1);
          return 0;
        }
        sp, index := sp.branches[l], rest;
      }
      AtLeaf(sp, i);
      v := sp.leaves[index];
    }

    /** The page of another level, with the top page so far as its branch 0. */
    method PageAbove() returns (tmp: Page)
      requires Valid()
      ensures fresh(tmp) && tmp.level == root.level + 1 && |tmp.leaves| == |tmp.branches| == SLOTS
      ensures BranchesFit(pages[Key(tmp.level, 0) := tmp], Key(tmp.level, 0), tmp.branches)
    {
      tmp := new Page(root.level + 1);
      TopFits(pages, root.level, tmp, tmp.branches);
      tmp.branches := tmp.branches[0 := root];
    }

    /** Another level on top: the old top page becomes branch 0. */
    method Grow()
      requires Valid() && root.level < 4
      modifies this
      ensures Valid() && fresh(root) && root.level == old(root.level) + 1
        && pages == old(pages)[Key(root.level, 0) := root]
    {
      hide BranchesFit, Rooted;
      ghost var was := pages;
      ghost var top := root.level;
      root := PageAbove();
      pages := was[Key(top + 1, 0) := root];
      NewTop(was.Keys, top);
      assert pages.Keys == was.Keys + {Key(top + 1, 0)};
      forall k | k in was
        ensures Fits(k)
      {
        assert old(Fits(k));
        TopStillFits(was, top, k, was[k].branches, root);
      }
    }

    /** A new page below `sp` on the way to index `i`. */
    method AddBelow(sp: Page, i: nat, l: nat) returns (page: Page)
      requires Valid() && sp.level > 0 && Holds(sp, i) && l == Shift(i, sp.level) % SLOTS
      requires KeyOf(i, sp.level - 1) !in pages
      modifies `pages, sp`branches
      ensures Valid() && fresh(page) && page.level == sp.level - 1 && Holds(page, i)
      ensures pages == old(pages)[KeyOf(i, sp.level - 1) := page] && forall j :: 0 <= j < SLOTS ==> page.leaves[j] == 0
    {
      hide BranchesFit;
      hide Shift;
      assert Fits(KeyOf(i, sp.level));
      ghost var was, key, parent := pages, KeyOf(i, sp.level - 1), KeyOf(i, sp.level);
      SlotLeads(i, sp.level);
      page := new Page(sp.level - 1);
      NewFits(was, root.level, key, page, page.branches);
      ParentFits(was, parent, l, sp.branches, page);
      sp.branches := sp.branches[l := page];
      pages := was[key := page];
      assert pages.Keys == was.Keys + {key};
      NewBelow(was.Keys, root.level, key, parent, l);
      forall k | k in was && k != parent
        ensures Fits(k)
      {
        assert old(Fits(k));
        OneParent(k, parent, l);
        StillFits(was, k, was[k].branches, key, page);
      }
    }

    /** A new top page changes no value. */
    method AddTop()
      requires Valid() && root.level < 4
      modifies this
      ensures Valid() && root.level == old(root.level) + 1 && fresh(Repr() - old(Repr()))
      ensures forall j: nat :: At(j) == old(At(j))
    {
      hide Shift, BranchesFit, Rooted;
      Grow();
    }

    /** Nor does a new page below. */
    method Descend(sp: Page, i: nat, l: nat) returns (below: Page)
      requires Valid() && sp.level > 0 && Holds(sp, i) && l == Shift(i, sp.level) % SLOTS
      modifies `pages, sp`branches
      ensures Valid() && below.level == sp.level - 1 && Holds(below, i) && fresh(Repr() - old(Repr()))
      ensures forall j: nat :: At(j) == old(At(j))
    {
      hide Shift, BranchesFit, Rooted;
      Branch(sp, i, l);
      if sp.branches[l] == null {
        below := AddBelow(sp, i, l);
      } else {
        below := sp.branches[l];
      }
    }

    /** Add levels until the index is covered. */
    method Cover(i: nat)
      requires Valid() && i < LIMIT
      modifies this
      ensures Valid() && i < Power(root.level + 1) && fresh(Repr() - old(Repr()))
      ensures forall j: nat :: At(j) == old(At(j))
    {
      hide Shift, BranchesFit, Rooted, Fits, At;
      FiveLevels();
      hide Power;
      while Power(root.level + 1) <= i
        invariant Valid() && fresh(Repr() - old(Repr()))
        invariant forall j: nat :: At(j) == old(At(j))
        decreases 4 - root.level
      {
        AddTop();
      }
    }

    /** `StrpageSet`: the value at one index, and every other value as it was. */
    method Set(i: nat, v: Word)
      requires Valid() && i < LIMIT
      modifies this, Repr()
      ensures Valid() && fresh(Repr() - old(Repr()))
      ensures forall j: nat :: At(j) == if j == i then v else old(At(j))
    {
      hide Shift, BranchesFit, Rooted, Power, Low, Fits, At, KeyOf;
      Cover(i);
      AtTop(i);
      var sp: Page, index := root, i;
      while sp.level > 0
        invariant Valid() && fresh(Repr() - old(Repr()))
        invariant Holds(sp, i) && sp.level <= root.level && index == Low(i, sp.level + 1)
        invariant forall j: nat :: At(j) == old(At(j))
        decreases sp.level
      {
        var l, rest := Slot(sp, i, index);
        sp := Descend(sp, i, l);
        index := rest;
      }
      SetLeaf(sp, i, index, v);
    }

    method SetLeaf(sp: Page, i: nat, index: nat, v: Word)
      requires Valid() && Holds(sp, i) && sp.level == 0 && index == Low(i, 1)
      modifies sp`leaves
      ensures Valid() && forall j: nat :: At(j) == if j == i then v else old(At(j))
    {
      hide BranchesFit;
      assert Fits(KeyOf(i, 0));
      sp.leaves := sp.leaves[index := v];
      forall k | k in pages
        ensures Fits(k)
      {
        assert old(Fits(k));
      }
      SamePlace(i);
    }
  }

  /** A section number: what `StrpageSet` can index. */
  type Segment = x: int | 0 <= x < 0x8000_0000

  /** The running offsets of an assembly: one for each section, and one for absolute space. */
  class Sections {
    const offsets: Array
    var segment: Segment
    var inAbsolute: bool
    var absolute: Word

    ghost predicate Valid()
      reads this, offsets, offsets.Repr()
    {
      offsets.Valid()
    }

    constructor ()
      ensures Valid() && fresh(offsets) && fresh(offsets.Repr()) && forall s: nat :: offsets.At(s) == 0
    {
      offsets := new Array();
      segment, inAbsolute, absolute := 0, false, 0;
    }

    /** `CurrentOffset` */
    method Current() returns (offset: Word)
      requires Valid()
      ensures offset == if inAbsolute then absolute else offsets.At(segment)
    {
      if inAbsolute {
        return absolute;
      }
      offset := offsets.Get(segment);
    }

    /** `SetCurrentOffset`: the current section's offset and no other. */
    method SetCurrent(offset: Word)
      requires Valid()
      modifies `absolute, offsets, offsets.Repr()
      ensures Valid() && fresh(offsets.Repr() - old(offsets.Repr()))
      ensures absolute == if inAbsolute then Truncated(offset) else old(absolute)
      ensures forall s: nat :: offsets.At(s) == if !inAbsolute && s == segment then offset else old(offsets.At(s))
    {
      if inAbsolute {
        absolute := Truncated(offset);
      } else {
        offsets.Set(segment, offset);
      }
    }
  }

  /** An offset cut to int32_t and widened again. */
  function Truncated(offset: Word): (t: Word)
    ensures (t - offset) % 0x1_0000_0000 == 0 && (t < 0x8000_0000 || t >= 0xffff_ffff_8000_0000)
  {
    var low := offset % 0x1_0000_0000;
    if low < 0x8000_0000 then low else low + 0xffff_ffff_0000_0000
  }

  /** An index is known by its page and its slot. */
  lemma SamePlace(i: nat)
    ensures forall j: nat :: KeyOf(j, 0) == KeyOf(i, 0) && j % SLOTS == i % SLOTS ==> j == i
  {
    forall j: nat
      ensures KeyOf(j, 0) == KeyOf(i, 0) && j % SLOTS == i % SLOTS ==> j == i
    {
      assert Shift(j, 1) == Shift(j, 0) / SLOTS == j / SLOTS;
      assert Shift(i, 1) == Shift(i, 0) / SLOTS == i / SLOTS;
    }
  }

  lemma TopFits(was: map<Key, Page>, top: nat, page: Page, branches: seq<Page?>)
    requires Rooted(was.Keys, top) && |branches| == SLOTS && forall j :: 0 <= j < SLOTS ==> branches[j] == null
    ensures BranchesFit(was[Key(top + 1, 0) := page], Key(top + 1, 0), branches[0 := was[Key(top, 0)]])
  {
  }

  /** A page keeps its branches when a page is added that is not below it. */
  lemma StillFits(was: map<Key, Page>, k: Key, branches: seq<Page?>, key: Key, page: Page)
    requires BranchesFit(was, k, branches) && (k.level > 0 ==> forall j :: 0 <= j < SLOTS ==> ChildKey(k, j) != key)
    ensures BranchesFit(was[key := page], k, branches)
  {
  }

  lemma TopStillFits(was: map<Key, Page>, top: nat, k: Key, branches: seq<Page?>, page: Page)
    requires Rooted(was.Keys, top) && k in was && BranchesFit(was, k, branches)
    ensures BranchesFit(was[Key(top + 1, 0) := page], k, branches)
  {
  }

  lemma ParentFits(was: map<Key, Page>, parent: Key, l: nat, branches: seq<Page?>, page: Page)
    requires parent.level > 0 && l < SLOTS && BranchesFit(was, parent, branches)
    ensures BranchesFit(was[ChildKey(parent, l) := page], parent, branches[l := page])
  {
    OneParent(parent, parent, l);
  }

  lemma NewFits(was: map<Key, Page>, top: nat, key: Key, page: Page, branches: seq<Page?>)
    requires Rooted(was.Keys, top) && key !in was && key.level < top
    requires |branches| == SLOTS && forall j :: 0 <= j < SLOTS ==> branches[j] == null
    ensures BranchesFit(was[key := page], key, branches)
  {
    NothingBelow(was.Keys, top, key);
  }

  lemma NewTop(keys: set<Key>, top: nat)
    requires Rooted(keys, top)
    ensures Rooted(keys + {Key(top + 1, 0)}, top + 1) && Key(top + 1, 0) !in keys
    ensures forall j :: 0 < j < SLOTS ==> Key(top, j) !in keys
  {
  }

  lemma NewBelow(keys: set<Key>, top: nat, key: Key, parent: Key, l: nat)
    requires Rooted(keys, top) && parent in keys && parent.level > 0 && l < SLOTS && key == ChildKey(parent, l)
    ensures Rooted(keys + {key}, top) && ParentKey(key) == parent
  {
  }

  /** A page's number is the child of one slot of one page only. */
  lemma OneParent(k: Key, parent: Key, l: nat)
    requires parent.level > 0 && l < SLOTS
    ensures k.level > 0 ==> forall j :: 0 <= j < SLOTS && ChildKey(k, j) == ChildKey(parent, l) ==>
      k == parent && j == l
  {
  }

  lemma NothingBelow(keys: set<Key>, top: nat, key: Key)
    requires Rooted(keys, top) && key !in keys && key.level < top
    ensures key.level > 0 ==> forall j :: 0 <= j < SLOTS ==> ChildKey(key, j) !in keys
  {
    if key.level > 0 {
      forall j | 0 <= j < SLOTS
        ensures ChildKey(key, j) !in keys
      {
        assert ParentKey(ChildKey(key, j)) == key;
      }
    }
  }
}
