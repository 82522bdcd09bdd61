/**
 Which ranges the disassembler keeps clear: when an instruction is printed inside a range that it was told to pass over.

 The sync points of the command line decide that, whatever `disasm` says and adds.
 */
module SyncRanges {
  import opened SyncHeap
  import opened Listing

  function Stop(s: Sync): nat {
    s.pos + s.length
  }

  /** An instruction lies wholly before a sync range or wholly after it. */
  ghost predicate Clear(e: Event, s: Sync) {
    e.Insn? ==> e.offset + |e.bytes| <= s.pos || Stop(s) <= e.offset
  }

  ghost predicate AllClear(log: seq<Event>, entries: seq<Sync>) {
    forall e, s :: e in log && s in entries ==> Clear(e, s)
  }

  /** Ranges and file stay within 32 bits. */
  ghost predicate Narrow(j: Job) {
    j.origin + |j.data| < WRAP && forall s :: s in j.heap ==> Stop(s) < WRAP
  }

  // ---------- When ranges are run over ----------

  /** Inside a range: after its start and before its end. */
  predicate Inside(at: nat, s: Sync) {
    s.pos < at < Stop(s)
  }

  /** `b` begins in `a` and ends after it. */
  predicate Crossing(a: Sync, b: Sync) {
    a.pos <= b.pos < Stop(a) < Stop(b)
  }

  /** A range that begins no later than `a` holds `b` too, or lasts to the end of the file. */
  ghost predicate Enclosed(a: Sync, b: Sync, entries: seq<Sync>, end: nat) {
    exists c :: c in entries && c.pos <= a.pos && (Stop(b) <= Stop(c) || end <= Stop(c))
  }

  /** The file begins inside a range, or two ranges cross inside the file and no third one encloses them. */
  ghost predicate Crossed(entries: seq<Sync>, origin: nat, end: nat) {
    || (origin < end && exists s :: s in entries && Inside(origin, s))
    || exists a, b ::
      a in entries && b in entries && Crossing(a, b) && origin <= a.pos && Stop(a) < end
      && !Enclosed(a, b, entries, end)
  }

  /** Ranges that begin together end together. */
  ghost predicate Distinct(entries: seq<Sync>) {
    forall a, b :: a in entries && b in entries && a.pos == b.pos && a.length > 0 && b.length > 0 ==> a == b
  }

  /** No range lies over the origin, and of two that overlap the later lies inside the earlier. */
  ghost predicate Tidy(entries: seq<Sync>, origin: nat) {
    && (forall s :: s in entries ==> !Inside(origin, s))
    && forall a, b :: a in entries && b in entries && a.pos <= b.pos ==> Stop(a) <= b.pos || Stop(b) <= Stop(a)
  }

  lemma TidyNeverCrosses(entries: seq<Sync>, origin: nat, end: nat)
    requires Tidy(entries, origin)
    ensures Distinct(entries) && !Crossed(entries, origin, end)
  {
  }

  /** After a call of next_sync that left `h`: no later call inside the file finds its offset inside a pending range. */
  predicate CourseFrom(h: seq<Sync>, end: nat)
    decreases |h|
  {
    if h == [] then true
    else
      var at := Stop(First(h));
      assert |Removed(h)| < |h|;
      at >= end || ((forall s :: s in h ==> !Inside(at, s)) && CourseFrom(Pending(h, at % WRAP), end))
  }

  /** The same of all calls, the first one at the origin. */
  predicate CourseClear(h: seq<Sync>, origin: Word32, end: nat) {
    origin >= end || ((forall s :: s in h ==> !Inside(origin, s)) && CourseFrom(Pending(h, origin), end))
  }

  /** At a call of next_sync at file position `at`, inside the file, the offset is inside no pending range. */
  ghost predicate CallClear(j: Job, h: seq<Sync>, at: nat) {
    at < |j.data| ==> forall s :: s in h ==> !Inside(j.origin + at, s)
  }

  /** The same of every call of a run, each with the heap as the points added so far have left it. */
  ghost predicate CallsClear(j: Job, steps: seq<Step>) {
    if steps == [] then CallClear(j, j.heap, 0)
    else
      var front := steps[..|steps| - 1];
      var v := Replay(j, front);
      CallsClear(j, front) && (steps[|steps| - 1].Pass? ==> CallClear(j, v.heap, v.at + v.next.length))
  }

  // ---------- Points that are waited for ----------

  /** Points added at or after the sync point in force. */
  function Awaited(j: Job, v: View, points: seq<Word32>): (r: seq<Sync>) {
    if points == [] then []
    else
      var n := |points| - 1;
      Awaited(j, v, points[..n]) +
      if Active(v.next) && Offset(j, v) <= v.next.pos <= points[n] then [Sync(points[n], 0)] else []
  }

  lemma {:induction false} AwaitedIs(j: Job, v: View, points: seq<Word32>, s: Sync)
    ensures s in Awaited(j, v, points) <==>
      s.length == 0 && s.pos in points && Active(v.next) && Offset(j, v) <= v.next.pos <= s.pos
  {
    if points != [] {
      AwaitedIs(j, v, points[..|points| - 1], s);
      assert points == points[..|points| - 1] + [points[|points| - 1]];
    }
  }

  /** The sync points of the command line, and the added ones that are waited for. */
  function Known(j: Job, steps: seq<Step>): seq<Sync> {
    if steps == [] then j.heap
    else
      var front, s := steps[..|steps| - 1], steps[|steps| - 1];
      var v := Replay(j, front);
      Known(j, front) + if s.Item? then Awaited(j, v, Asked(j, v, s.window).points) else []
  }

  ghost predicate Silent(j: Job) {
    forall w, o :: j.disasm(w, o).points == []
  }

  // ---------- A run so far ----------

  /** Added before the sync point in force: nobody waits for it. */
  predicate Stale(s: Sync, next: Sync) {
    s.length == 0 && (Active(next) ==> s.pos < next.pos)
  }

  ghost predicate Awaits(next: Sync, h: seq<Sync>, s: Sync) {
    Active(next) && next.pos <= s.pos && s in h
  }

  /** No range of `entries` that begins in `c` ends after it, but for the end of the file. */
  ghost predicate Tight(c: Sync, entries: seq<Sync>, end: nat) {
    end <= Stop(c) || forall b :: b in entries && c.pos <= b.pos < Stop(c) ==> Stop(b) <= Stop(c)
  }

  ghost predicate Covered(a: Sync, entries: seq<Sync>, end: nat) {
    exists c :: c in entries && c.pos <= a.pos && Stop(a) <= Stop(c) && Tight(c, entries, end)
  }

  ghost predicate Printed(log: seq<Event>, here: nat) {
    forall e :: e in log && e.Insn? ==> e.offset + |e.bytes| <= here
  }

  /** Every known range is over or waited for; nothing else is in the heap but stale points. */
  ghost predicate OnTime(known: seq<Sync>, h: seq<Sync>, next: Sync, here: nat) {
    && (Active(next) ==> next in known && next in h && here <= next.pos)
    && (forall s :: s in known ==> Stop(s) <= here || Awaits(next, h, s))
    && (forall s :: s in h ==> Stale(s, next) || (s in known && Awaits(next, h, s)))
  }

  /** Every range of the command line that is over inside the file and no longer waited for lies in a tight one. */
  ghost predicate Settled(entries: seq<Sync>, h: seq<Sync>, next: Sync, origin: nat, end: nat) {
    && (forall s :: s in entries ==> !Inside(origin, s))
    && forall a :: a in entries && Stop(a) < end ==> Awaits(next, h, a) || Stop(a) <= origin || Covered(a, entries, end)
  }

  /** Known ranges are those of the command line and points. */
  ghost predicate Extends(known: seq<Sync>, entries: seq<Sync>) {
    (forall s :: s in entries ==> s in known) && forall s :: s in known ==> s in entries || s.length == 0
  }

  /** All is on time; or the file is used up; or a range is being run over. */
  datatype Mode = Timely | Finished | Late

  function End(j: Job): nat {
    j.origin + |j.data|
  }

  function Here(j: Job, v: View): nat {
    j.origin + v.at
  }

  ghost predicate KeptTimely(j: Job, v: View, known: seq<Sync>) {
    && v.at <= |j.data| && AllClear(v.log, known) && Printed(v.log, Here(j, v))
    && OnTime(known, v.heap, v.next, Here(j, v)) && Settled(j.heap, v.heap, v.next, j.origin, End(j))
    && (Silent(j) ==> v.next == First(v.heap) && (v.heap == [] || Active(v.next)))
    && (Silent(j) ==> (CourseClear(j.heap, j.origin, End(j)) <==> CourseFrom(v.heap, End(j))))
  }

  ghost predicate KeptFinished(j: Job, v: View, known: seq<Sync>) {
    && v.at >= |j.data| && AllClear(v.log, known) && !Crossed(j.heap, j.origin, End(j))
    && (Silent(j) ==> CourseClear(j.heap, j.origin, End(j)))
  }

  ghost predicate KeptLate(j: Job, v: View) {
    && (Distinct(j.heap) ==> Crossed(j.heap, j.origin, End(j)))
    && (Silent(j) ==> !CourseClear(j.heap, j.origin, End(j)))
    && (!AllClear(v.log, j.heap) || (v.at < |j.data| && v.next.pos < Here(j, v) && RunOver(j.heap, Here(j, v))))
  }

  ghost predicate RunOver(entries: seq<Sync>, at: nat) {
    exists s :: s in entries && Inside(at, s)
  }

  ghost predicate Kept(mode: Mode, j: Job, v: View, known: seq<Sync>) {
    match mode
    case Timely => KeptTimely(j, v, known)
    case Finished => KeptFinished(j, v, known)
    case Late => KeptLate(j, v)
  }

  // ---------- Printing an item ----------

  lemma NotClearStays(log: seq<Event>, more: seq<Event>, entries: seq<Sync>)
    requires !AllClear(log, entries)
    ensures !AllClear(log + more, entries)
  {
    var e, s :| e in log && s in entries && !Clear(e, s);
    assert e in log + more;
  }

  lemma LateItem(j: Job, v: View, s: Step)
    requires Narrow(j) && KeptLate(j, v) && Allowed(j, v, s) && s.Item?
    ensures KeptLate(j, Do(j, v, s))
  {
    var w := Do(j, v, s);
    var e := w.log[|w.log| - 1];
    assert w.log == v.log + [e];
    if AllClear(v.log, j.heap) {
      var r :| r in j.heap && Inside(Here(j, v), r);
      assert e in w.log && !Clear(e, r);
    } else {
      NotClearStays(v.log, [e], j.heap);
    }
  }

  lemma ItemClear(j: Job, v: View, known: seq<Sync>, more: seq<Sync>, e: Event)
    requires AllClear(v.log, known) && Printed(v.log, Here(j, v)) && OnTime(known, v.heap, v.next, Here(j, v))
    requires e.Insn? && e.offset == Here(j, v) && (Active(v.next) ==> e.offset + |e.bytes| <= v.next.pos)
    requires forall s :: s in more ==> Active(v.next) && v.next.pos <= s.pos
    ensures AllClear(v.log + [e], known + more)
  {
  }

  lemma ItemOnTime(known: seq<Sync>, more: seq<Sync>, h: seq<Sync>, g: seq<Sync>, points: seq<Word32>, next: Sync,
                   here: nat, there: nat)
    requires OnTime(known, h, next, here) && here <= there && (Active(next) ==> there <= next.pos)
    requires forall s :: s in g <==> s in h || (s.length == 0 && s.pos in points)
    requires forall s :: s in more <==> s.length == 0 && s.pos in points && Active(next) && next.pos <= s.pos
    ensures OnTime(known + more, g, next, there)
  {
    forall s | s in g
      ensures Stale(s, next) || (s in known + more && Awaits(next, g, s))
    {
      if s !in h && !Stale(s, next) {
        assert s in more;
      }
    }
  }

  lemma ItemSettled(entries: seq<Sync>, h: seq<Sync>, g: seq<Sync>, next: Sync, origin: nat, end: nat)
    requires Settled(entries, h, next, origin, end) && forall s :: s in h ==> s in g
    ensures Settled(entries, g, next, origin, end)
  {
    forall a | a in entries && Stop(a) < end
      ensures Awaits(next, g, a) || Stop(a) <= origin || Covered(a, entries, end)
    {
      assert Awaits(next, h, a) || Stop(a) <= origin || Covered(a, entries, end);
    }
  }

  lemma TimelyItem(j: Job, v: View, known: seq<Sync>, s: Step)
    requires Narrow(j) && KeptTimely(j, v, known) && Allowed(j, v, s) && s.Item? && Ordered(v.heap)
    ensures KeptTimely(j, Do(j, v, s), known + Awaited(j, v, Asked(j, v, s.window).points))
  {
    hide CourseFrom, CourseClear, Covered, InsertedAll;
    var w, points := Do(j, v, s), Asked(j, v, s.window).points;
    var more, e := Awaited(j, v, points), w.log[|w.log| - 1];
    InsertedAllIs(v.heap, points);
    forall x
      ensures x in more <==> x.length == 0 && x.pos in points && Active(v.next) && v.next.pos <= x.pos
    {
      AwaitedIs(j, v, points, x);
    }
    assert Offset(j, v) == Here(j, v);
    assert w.log == v.log + [e] && e.offset == Here(j, v) && |e.bytes| == w.at - v.at;
    ItemClear(j, v, known, more, e);
    ItemOnTime(known, more, v.heap, w.heap, points, v.next, Here(j, v), Here(j, w));
    ItemSettled(j.heap, v.heap, w.heap, v.next, j.origin, End(j));
    if Silent(j) {
      assert points == [];
      NothingInserted(v.heap);
    }
  }

  lemma NothingInserted(h: seq<Sync>)
    ensures InsertedAll(h, []) == h
  {
  }

  // ---------- Passing a sync point ----------

  lemma SkipClear(j: Job, v: View, entries: seq<Sync>)
    ensures AllClear(v.log + Skipped(j, v), entries) <==> AllClear(v.log, entries)
  {
    var more := Skipped(j, v);
    if AllClear(v.log, entries) {
      forall e, s | e in v.log + more && s in entries
        ensures Clear(e, s)
      {
        assert e in v.log || e in more;
      }
    } else {
      NotClearStays(v.log, more, entries);
    }
  }

  /** What the call of next_sync takes out and what it leaves. */
  lemma TakenOut(h: seq<Sync>, at: Word32)
    requires Ordered(h) && forall s :: s in h ==> Stop(s) < WRAP
    ensures forall s :: s in Pending(h, at) ==> s in h && First(Pending(h, at)).pos <= s.pos
    ensures forall s :: s in h && s !in Pending(h, at) ==> Stop(s) <= at
    ensures Pending(h, at) != [] ==> First(Pending(h, at)) in Pending(h, at) && Active(First(Pending(h, at)))
    ensures (Pending(h, at) == [] || First(Pending(h, at)).pos >= at) <==> forall s :: s in h ==> !Inside(at, s)
  {
    hide Pending;
    var gone := PendingIs(h, at);
    Split(gone, Pending(h, at), h);
    PendingAhead(h, at);
    forall s | s in h
      ensures SyncHeap.End(s) == Stop(s)
    {
    }
  }

  /** Where nothing is straddled, everything known is over or waited for again. */
  lemma CallOnTime(known: seq<Sync>, h: seq<Sync>, at: Word32)
    requires Ordered(h) && forall s :: s in h ==> Stop(s) < WRAP && !Inside(at, s)
    requires forall s :: s in h ==> s in known || s.pos < at
    requires forall s :: s in known ==> Stop(s) <= at || s in h
    ensures var r := Pending(h, at); OnTime(known, r, First(r), at)
  {
    hide Pending, First;
    var r := Pending(h, at);
    TakenOut(h, at);
    Inactive();
    if r == [] {
      forall s | s in known
        ensures Stop(s) <= at
      {
      }
    } else {
      forall s | s in r
        ensures s in known && Awaits(First(r), r, s)
      {
      }
    }
  }

  lemma Inactive()
    ensures !Active(First([]))
  {
  }

  /** The range just passed is tight, so what it covered is settled. */
  lemma CallSettled(entries: seq<Sync>, known: seq<Sync>, h: seq<Sync>, next: Sync, origin: nat, end: nat,
                    r: seq<Sync>, first: Sync)
    requires Extends(known, entries) && Active(next) && OnTime(known, h, next, next.pos)
      && Settled(entries, h, next, origin, end)
    requires end <= Stop(next) || forall s :: s in h ==> !Inside(Stop(next), s)
    requires forall s :: s in entries && s in h && Stop(s) < end && !Awaits(first, r, s) ==> Stop(s) <= Stop(next)
    ensures Settled(entries, r, first, origin, end)
  {
    forall a | a in entries && Stop(a) < end
      ensures Awaits(first, r, a) || Stop(a) <= origin || Covered(a, entries, end)
    {
      if Awaits(next, h, a) && !Awaits(first, r, a) {
        if a.length == 0 {
          assert Tight(a, entries, end);
        } else {
          assert next in entries;
          NextIsTight(entries, known, h, next, end);
        }
      }
    }
  }

  lemma NextIsTight(entries: seq<Sync>, known: seq<Sync>, h: seq<Sync>, next: Sync, end: nat)
    requires Extends(known, entries) && Active(next) && OnTime(known, h, next, next.pos)
    requires end <= Stop(next) || forall s :: s in h ==> !Inside(Stop(next), s)
    ensures Tight(next, entries, end)
  {
    forall b | b in entries && next.pos <= b.pos < Stop(next) && Stop(next) < end
      ensures Stop(b) <= Stop(next)
    {
      assert b in known;
      assert b in h ==> !Inside(Stop(next), b);
    }
  }

  /** Once everything in the file is settled, nothing was crossed. */
  lemma SettledIsNotCrossed(entries: seq<Sync>, h: seq<Sync>, next: Sync, origin: nat, end: nat)
    requires Settled(entries, h, next, origin, end) && (Active(next) ==> end <= next.pos)
    ensures !Crossed(entries, origin, end)
  {
    forall a, b | a in entries && b in entries && Crossing(a, b) && origin <= a.pos && Stop(a) < end
      ensures Enclosed(a, b, entries, end)
    {
      assert !Awaits(next, h, a);
      var c :| c in entries && c.pos <= a.pos && Stop(a) <= Stop(c) && Tight(c, entries, end);
    }
  }

  /** A range that is straddled where `next` ends crosses it, and nothing encloses the two. */
  lemma StraddledIsCrossed(entries: seq<Sync>, known: seq<Sync>, h: seq<Sync>, next: Sync, origin: nat, end: nat,
                           s: Sync)
    requires Extends(known, entries) && Active(next) && OnTime(known, h, next, next.pos) && origin <= next.pos
      && Stop(next) < end
    requires s in h && Inside(Stop(next), s) && Distinct(entries)
    ensures Crossed(entries, origin, end)
  {
    assert s in known && s in entries && next.pos <= s.pos;
    assert next in entries;
    forall c | c in entries && c.pos <= next.pos
      ensures Stop(c) <= Stop(next)
    {
      assert c in known;
    }
    assert !Enclosed(next, s, entries, end);
  }

  lemma OnTimeAt(known: seq<Sync>, h: seq<Sync>, next: Sync, entries: seq<Sync>, at: nat)
    requires Active(next) && OnTime(known, h, next, next.pos) && next.pos <= at
    requires Extends(known, entries) && forall s :: s in entries ==> Stop(s) < WRAP
    ensures forall s :: s in h ==> Stop(s) < WRAP && (s in known || s.pos < at)
    ensures forall s :: s in known ==> Stop(s) <= at || s in h
    ensures forall s :: s in h && Inside(at, s) ==> s in entries
  {
  }

  /** The sync point lies at or after the end of the file, or its range reaches there. */
  lemma PassFinishes(j: Job, v: View, known: seq<Sync>)
    requires Narrow(j) && KeptTimely(j, v, known) && Allowed(j, v, Pass) && Extends(known, j.heap)
      && End(j) <= Stop(v.next)
    ensures KeptFinished(j, Do(j, v, Pass), known)
  {
    hide Covered, Crossed, CourseClear, Pending;
    SkipClear(j, v, known);
    CallSettled(j.heap, known, v.heap, v.next, j.origin, End(j), [], Sync(0, 0));
    SettledIsNotCrossed(j.heap, [], Sync(0, 0), j.origin, End(j));
  }

  lemma PassIsLate(j: Job, v: View, known: seq<Sync>, s: Sync)
    requires Narrow(j) && KeptTimely(j, v, known) && Allowed(j, v, Pass) && Extends(known, j.heap)
      && Stop(v.next) < End(j)
    requires s in v.heap && Inside(Stop(v.next), s) && Ordered(v.heap)
    ensures KeptLate(j, Do(j, v, Pass))
  {
    hide Covered, Crossed, CourseClear, CourseFrom, Pending, Distinct, Settled, AllClear, Do, Allowed, Extends;
    var w, at := Do(j, v, Pass), Stop(v.next);
    Passed(j, v);
    SkipClear(j, v, j.heap);
    OnTimeAt(known, v.heap, v.next, j.heap, at);
    TakenOut(v.heap, at);
    assert RunOver(j.heap, at);
    if Silent(j) {
      CourseBreaks(v.heap, End(j), s);
    }
    if Distinct(j.heap) {
      StraddledIsCrossed(j.heap, known, v.heap, v.next, j.origin, End(j), s);
    }
  }

  /** Where the loop stands after the range. */
  lemma Passed(j: Job, v: View)
    requires Narrow(j) && Allowed(j, v, Pass) && v.at <= |j.data| && Stop(v.next) < WRAP
    ensures var w := Do(j, v, Pass);
      && Here(j, w) == Stop(v.next) && Here(j, v) == v.next.pos && Active(v.next)
      && w.heap == Pending(v.heap, Stop(v.next)) && w.next == First(w.heap) && w.log == v.log + Skipped(j, v)
  {
    hide Pending;
  }

  lemma PassSettled(entries: seq<Sync>, known: seq<Sync>, h: seq<Sync>, next: Sync, origin: nat, end: nat)
    requires Extends(known, entries) && Active(next) && OnTime(known, h, next, next.pos)
      && Settled(entries, h, next, origin, end)
    requires Ordered(h) && Stop(next) < WRAP && (forall s :: s in entries ==> Stop(s) < WRAP)
    requires forall s :: s in h ==> !Inside(Stop(next), s)
    ensures var r := Pending(h, Stop(next));
      OnTime(known, r, First(r), Stop(next))
      && Settled(entries, r, First(r), origin, end)
    ensures Pending(h, Stop(next)) == [] || Active(First(Pending(h, Stop(next))))
  {
    hide OnTime, Settled, Pending, First, Covered;
    OnTimeAt(known, h, next, entries, Stop(next));
    TakenOut(h, Stop(next));
    CallOnTime(known, h, Stop(next));
    CallSettled(entries, known, h, next, origin, end, Pending(h, Stop(next)), First(Pending(h, Stop(next))));
  }

  lemma PassIsTimely(j: Job, v: View, known: seq<Sync>)
    requires Narrow(j) && KeptTimely(j, v, known) && Allowed(j, v, Pass) && Extends(known, j.heap)
      && Stop(v.next) < End(j)
    requires Ordered(v.heap) && forall s :: s in v.heap ==> !Inside(Stop(v.next), s)
    ensures KeptTimely(j, Do(j, v, Pass), known)
  {
    hide Covered, CourseClear, CourseFrom, Pending, Settled, AllClear, OnTime, Do, Allowed, Ordered, Extends, First;
    Passed(j, v);
    SkipClear(j, v, known);
    PassSettled(j.heap, known, v.heap, v.next, j.origin, End(j));
    Inactive();
    if Silent(j) {
      CourseStep(v.heap, End(j));
    }
  }

  lemma AtThePoint(j: Job, v: View, known: seq<Sync>)
    requires Narrow(j) && KeptTimely(j, v, known) && Allowed(j, v, Pass)
    ensures j.origin + (v.at + v.next.length) == Stop(v.next)
  {
  }

  lemma TimelyPass(j: Job, v: View, known: seq<Sync>) returns (mode: Mode)
    requires Narrow(j) && KeptTimely(j, v, known) && Allowed(j, v, Pass) && Ordered(v.heap) && Extends(known, j.heap)
    ensures Kept(mode, j, Do(j, v, Pass), known)
    ensures mode == Late <==> !CallClear(j, v.heap, v.at + v.next.length)
  {
    hide KeptTimely, KeptLate, KeptFinished, Do, Allowed;
    AtThePoint(j, v, known);
    if End(j) <= Stop(v.next) {
      PassFinishes(j, v, known);
      mode := Finished;
    } else if s :| s in v.heap && Inside(Stop(v.next), s) {
      PassIsLate(j, v, known, s);
      mode := Late;
    } else {
      PassIsTimely(j, v, known);
      mode := Timely;
    }
  }

  lemma OtherPass(j: Job, v: View, known: seq<Sync>, mode: Mode)
    requires Narrow(j) && mode != Timely && Kept(mode, j, v, known) && Allowed(j, v, Pass)
    ensures Kept(mode, j, Do(j, v, Pass), known)
    ensures mode == Finished ==> CallClear(j, v.heap, v.at + v.next.length)
  {
    hide Crossed, CourseClear, Pending, Distinct;
    if mode == Finished {
      SkipClear(j, v, known);
    } else {
      assert !AllClear(v.log, j.heap);
      NotClearStays(v.log, Skipped(j, v), j.heap);
    }
  }

  // ---------- Whole runs ----------

  lemma Begins(j: Job) returns (mode: Mode)
    requires Narrow(j) && Ordered(j.heap)
    ensures Kept(mode, j, Beginning(j), j.heap) && (mode == Late <==> !CallClear(j, j.heap, 0))
  {
    hide Pending, Covered;
    var v := Beginning(j);
    TakenOut(j.heap, j.origin);
    if |j.data| == 0 {
      mode := Finished;
    } else if s :| s in j.heap && Inside(j.origin, s) {
      mode := Late;
    } else {
      CallOnTime(j.heap, j.heap, j.origin);
      mode := Timely;
    }
  }

  lemma {:induction false} KnownExtends(j: Job, steps: seq<Step>)
    ensures Extends(Known(j, steps), j.heap)
  {
    if steps != [] {
      var front, s := steps[..|steps| - 1], steps[|steps| - 1];
      KnownExtends(j, front);
      if s.Item? {
        var v := Replay(j, front);
        forall x
          ensures x in Awaited(j, v, Asked(j, v, s.window).points) ==> x.length == 0
        {
          AwaitedIs(j, v, Asked(j, v, s.window).points, x);
        }
      }
    }
  }

  lemma {:induction false} RunIsKept(j: Job, steps: seq<Step>) returns (mode: Mode)
    requires Narrow(j) && Ordered(j.heap) && Lawful(j, steps)
    ensures Kept(mode, j, Replay(j, steps), Known(j, steps)) && (mode == Late <==> !CallsClear(j, steps))
  {
    hide CallClear, Kept, Do, Allowed, Narrow, Extends, Ordered, Beginning;
    if steps == [] {
      mode := Begins(j);
    } else {
      var front, s := steps[..|steps| - 1], steps[|steps| - 1];
      mode := RunIsKept(j, front);
      RunIsRooted(j, front);
      KnownExtends(j, front);
      mode := StepIsKept(j, Replay(j, front), Known(j, front), s, mode);
    }
  }

  lemma StepIsKept(j: Job, v: View, known: seq<Sync>, s: Step, was: Mode) returns (mode: Mode)
    requires Narrow(j) && Ordered(v.heap) && Extends(known, j.heap) && Kept(was, j, v, known) && Allowed(j, v, s)
    ensures Kept(mode, j, Do(j, v, s), known + if s.Item? then Awaited(j, v, Asked(j, v, s.window).points) else [])
    ensures mode == Late <==> was == Late || (s.Pass? && !CallClear(j, v.heap, v.at + v.next.length))
  {
    hide KeptTimely, KeptLate, Do, Awaited, CallClear;
    mode := was;
    if s.Pass? {
      assert known + [] == known;
      if was == Timely {
        mode := TimelyPass(j, v, known);
      } else {
        OtherPass(j, v, known, was);
      }
    } else if was == Timely {
      TimelyItem(j, v, known, s);
    } else {
      LateItem(j, v, s);
    }
  }

  /**
   Runs over whole files, whatever `disasm` says and adds: no instruction is printed inside a range of the command line,
   nor inside a point that was waited for, exactly when no two ranges cross that no third one encloses. Of ranges that
   begin together the heap decides which comes first: then it is decided by what the calls of next_sync find pending,
   and if no points are added by the course of the heap alone.
   */
  lemma RangesAreKeptClear(j: Job, steps: seq<Step>)
    requires Narrow(j) && Ordered(j.heap) && Lawful(j, steps) && Replay(j, steps).at >= |j.data|
    ensures var log, crossed := Replay(j, steps).log, Crossed(j.heap, j.origin, j.origin + |j.data|);
      && (AllClear(log, j.heap) <==> AllClear(log, Known(j, steps)))
      && (AllClear(log, j.heap) <==> CallsClear(j, steps))
      && (AllClear(log, j.heap) ==> !crossed)
      && (Distinct(j.heap) ==> (AllClear(log, j.heap) <==> !crossed))
      && (Silent(j) ==> (AllClear(log, j.heap) <==> CourseClear(j.heap, j.origin, j.origin + |j.data|)))
  {
    hide Crossed, CourseClear, CallsClear, Distinct, CourseFrom, Lawful, Replay, Known;
    var mode := RunIsKept(j, steps);
    KnownExtends(j, steps);
    var v := Replay(j, steps);
    if mode == Timely {
      TimelyEnd(j, v, Known(j, steps));
    }
  }

  lemma TimelyEnd(j: Job, v: View, known: seq<Sync>)
    requires KeptTimely(j, v, known) && v.at >= |j.data|
    ensures AllClear(v.log, known) && !Crossed(j.heap, j.origin, End(j))
    ensures Silent(j) ==> CourseClear(j.heap, j.origin, End(j))
  {
    hide CourseClear, CourseFrom, Crossed, Settled, AllClear;
    SettledIsNotCrossed(j.heap, v.heap, v.next, j.origin, End(j));
    if Silent(j) {
      CourseEnds(v.heap, End(j));
    }
  }

  lemma CourseStep(h: seq<Sync>, end: nat)
    requires h != [] && Stop(First(h)) < end <= WRAP && forall s :: s in h ==> !Inside(Stop(First(h)), s)
    ensures CourseFrom(h, end) <==> CourseFrom(Pending(h, Stop(First(h))), end)
  {
    hide Pending, Removed;
    assert Stop(First(h)) % WRAP == Stop(First(h));
  }

  lemma CourseBreaks(h: seq<Sync>, end: nat, s: Sync)
    requires s in h && Stop(First(h)) < end && Inside(Stop(First(h)), s)
    ensures !CourseFrom(h, end)
  {
    hide Pending, Removed;
  }

  lemma CourseEnds(h: seq<Sync>, end: nat)
    requires h == [] || end <= First(h).pos
    ensures CourseFrom(h, end)
  {
  }

  /** Two ranges that begin together do not cross, but the heap that shows the shorter one first runs the longer one
      over. */
  lemma TheHeapDecidesTies()
    ensures var long, short := Sync(5, 10), Sync(5, 3);
      && CourseClear([long, short], 0, 30) && !CourseClear([short, long], 0, 30)
      && !Crossed([long, short], 0, 30) && !Crossed([short, long], 0, 30)
  {
    var long, short := Sync(5, 10), Sync(5, 3);
    var h, g := [long, short], [short, long];
    assert Pending(h, 0) == h && Pending(g, 0) == g;
    assert Removed(h) == [short] && Removed([short]) == [];
    assert Pending([], 15) == [] && Pending([short], 15) == [] && Pending(h, 15) == [];
    assert CourseFrom([], 30);
    assert long in g && Inside(8, long);
    assert Enclosed(short, long, h, 30) by {
      assert long in h;
    }
    assert Enclosed(short, long, g, 30);
  }
}
