/**
 What the disassembler prints, told on the flat file: the buffering loop of asm/dasm.cpp without its buffer.

 A run is a list of steps. Each step prints one item or passes over the range of a sync point; the only freedom left is
 how many bytes lay in the buffer when `disasm` was asked and what stale bytes stood behind them.
 */
module Listing {
  import opened Common
  import opened SyncHeap

  // ---------- Offsets ----------

  /** The 32-bit difference. */
  function Minus(a: Word32, b: Word32): Word32 {
    (a - b) % WRAP
  }

  function Plus(a: Word32, n: nat): Word32 {
    (a + n) % WRAP
  }

  /** Going on by no more than the difference takes as much off it. */
  lemma GapCloses(next: Word32, offset: Word32, n: nat)
    requires n <= Minus(next, offset)
    ensures Minus(next, Plus(offset, n)) == Minus(next, offset) - n
  {
  }

  lemma PlusPlus(a: Word32, m: nat, n: nat)
    ensures Plus(Plus(a, m), n) == Plus(a, m + n)
  {
  }

  // ---------- Events ----------

  const INSN_MAX: nat := 32

  /** What is printed: one instruction with its bytes, or a range passed over. */
  datatype Event = Insn(offset: Word32, bytes: seq<Byte>) | Skip(offset: Word32, length: Word32)

  function Width(e: Event): nat {
    match e
    case Insn(_, bytes) => |bytes|
    case Skip(_, length) => length
  }

  /** The file position after the events. */
  function Total(log: seq<Event>): nat {
    if log == [] then 0 else Total(log[..|log| - 1]) + Width(log[|log| - 1])
  }

  /** An event at file position `at` shows the true offset and the true bytes. */
  ghost predicate Tells(e: Event, at: nat, data: seq<Byte>, origin: Word32) {
    && e.offset == Plus(origin, at)
    && (e.Insn? ==> e.bytes != [] && at + |e.bytes| <= |data| && e.bytes == data[at..at + |e.bytes|])
  }

  /** Events follow each other without gap or overlap, each at its true place. */
  ghost predicate Told(log: seq<Event>, data: seq<Byte>, origin: Word32) {
    log == [] || (Told(log[..|log| - 1], data, origin) && Tells(log[|log| - 1], Total(log[..|log| - 1]), data, origin))
  }

  lemma OneMoreEvent(log: seq<Event>, e: Event, data: seq<Byte>, origin: Word32)
    requires Told(log, data, origin) && Tells(e, Total(log), data, origin)
    ensures Told(log + [e], data, origin) && Total(log + [e]) == Total(log) + Width(e)
  {
    assert (log + [e])[..|log|] == log;
  }

  /** Where event `k` begins. */
  function Start(log: seq<Event>, k: nat): nat
    requires k <= |log|
  {
    Total(log[..k])
  }

  lemma {:induction false} StartsGrow(log: seq<Event>, j: nat, k: nat)
    requires j < k <= |log|
    ensures Start(log, j) + Width(log[j]) <= Start(log, k)
    decreases k
  {
    assert log[..k][..k - 1] == log[..k - 1];
    if j < k - 1 {
      StartsGrow(log, j, k - 1);
    }
  }

  ghost predicate Holds(log: seq<Event>, k: nat, x: nat)
    requires k < |log|
  {
    Start(log, k) <= x < Start(log, k) + Width(log[k])
  }

  /** Every byte before the end of the log lies in some event. */
  lemma {:induction false} SomeEvent(log: seq<Event>, n: nat, x: nat) returns (k: nat)
    requires n <= |log| && x < Start(log, n)
    ensures k < n && Holds(log, k, x)
    decreases n
  {
    assert log[..n][..n - 1] == log[..n - 1];
    if x < Start(log, n - 1) {
      k := SomeEvent(log, n - 1, x);
    } else {
      k := n - 1;
    }
  }

  /** Every byte of the file lies in exactly one event, and an instruction there shows it. */
  lemma Partition(log: seq<Event>, data: seq<Byte>, origin: Word32, x: nat) returns (k: nat)
    requires Told(log, data, origin) && |data| <= Total(log) && x < |data|
    ensures k < |log| && Holds(log, k, x)
    ensures forall j :: 0 <= j < |log| && Holds(log, j, x) ==> j == k
    ensures log[k].Insn? ==> log[k].bytes[x - Start(log, k)] == data[x]
    ensures log[k].offset == Plus(origin, Start(log, k))
  {
    assert log[..|log|] == log;
    k := SomeEvent(log, |log|, x);
    forall j | 0 <= j < |log| && Holds(log, j, x)
      ensures j == k
    {
      if j < k {
        StartsGrow(log, j, k);
      } else if k < j {
        StartsGrow(log, k, j);
      }
    }
    ToldAt(log, data, origin, |log|, k);
  }

  lemma {:induction false} ToldAt(log: seq<Event>, data: seq<Byte>, origin: Word32, n: nat, k: nat)
    requires k < n <= |log| && Told(log[..n], data, origin)
    ensures Tells(log[k], Start(log, k), data, origin)
    decreases n
  {
    assert log[..n][..n - 1] == log[..n - 1];
    if k < n - 1 {
      ToldAt(log, data, origin, n - 1, k);
    }
  }

  // ---------- The machine ----------

  /** What `disasm` says: a length, 0 if nothing fits, and the sync points it adds under `-a`. */
  datatype Answer = Answer(length: nat, points: seq<Word32>)

  /** The bytes after the header that `-e` skips, their offset, the sync points given on the command line, and
      `disasm`. */
  datatype Job = Job(data: seq<Byte>, origin: Word32, heap: seq<Sync>, disasm: (seq<Byte>, Word32) -> Answer)

  /** A file position, the heap, the sync point in force and what is printed so far. */
  datatype View = View(at: nat, heap: seq<Sync>, next: Sync, log: seq<Event>)

  /** Ask `disasm` about `room` true bytes and whatever stands behind them; or pass a sync point. */
  datatype Step = Item(window: seq<Byte>, room: nat) | Pass

  /** The source takes position and length 0 to mean that there is no sync point. */
  predicate Active(s: Sync) {
    s.pos != 0 || s.length != 0
  }

  function Offset(j: Job, v: View): Word32 {
    Plus(j.origin, v.at)
  }

  /** How far the sync point in force is away. */
  function Gap(j: Job, v: View): Word32 {
    Minus(v.next.pos, Offset(j, v))
  }

  function Asked(j: Job, v: View, window: seq<Byte>): Answer {
    j.disasm(window, Offset(j, v))
  }

  /** A length that is 0, too long for the buffered bytes or across the sync point is taken as one byte. */
  function Length(j: Job, v: View, length: nat, room: nat): nat {
    if length == 0 || length > room || (Active(v.next) && length > Gap(j, v)) then 1 else length
  }

  function InsertedAll(h: seq<Sync>, points: seq<Word32>): seq<Sync> {
    if points == [] then h
    else Inserted(InsertedAll(h, points[..|points| - 1]), Sync(points[|points| - 1], 0))
  }

  function Taken(window: seq<Byte>, n: nat): seq<Byte> {
    if n <= |window| then window[..n] else window
  }

  function Skipped(j: Job, v: View): seq<Event> {
    if v.next.length > 0 then [Skip(Offset(j, v), v.next.length)] else []
  }

  function Do(j: Job, v: View, s: Step): View {
    match s
    case Item(window, room) =>
      var a := Asked(j, v, window);
      var n := Length(j, v, a.length, room);
      View(v.at + n, InsertedAll(v.heap, a.points), v.next, v.log + [Insn(Offset(j, v), Taken(window, n))])
    case Pass =>
      var at := v.at + v.next.length;
      var h := Pending(v.heap, Plus(j.origin, at));
      View(at, h, First(h), v.log + Skipped(j, v))
  }

  /** After the first call of next_sync. */
  function Beginning(j: Job): View {
    var h := Pending(j.heap, j.origin);
    View(0, h, First(h), [])
  }

  function Replay(j: Job, steps: seq<Step>): View {
    if steps == [] then Beginning(j) else Do(j, Replay(j, steps[..|steps| - 1]), steps[|steps| - 1])
  }

  /** Bytes are asked about once an instruction surely fits them, or no more can follow before the end or the sync
      point. */
  ghost predicate Enough(j: Job, v: View, room: nat) {
    room >= 32 || v.at + room == |j.data| || (Active(v.next) && room == Gap(j, v))
  }

  ghost predicate Allowed(j: Job, v: View, s: Step) {
    match s
    case Item(window, room) =>
      && 0 < room <= |window| && v.at + room <= |j.data| && window[..room] == j.data[v.at..v.at + room]
      && (Active(v.next) ==> room <= Gap(j, v))
      && Enough(j, v, room)
    case Pass => Active(v.next) && Offset(j, v) == v.next.pos
  }

  ghost predicate Lawful(j: Job, steps: seq<Step>) {
    steps == [] || (Lawful(j, steps[..|steps| - 1]) && Allowed(j, Replay(j, steps[..|steps| - 1]), steps[|steps| - 1]))
  }

  lemma OneStep(j: Job, steps: seq<Step>, s: Step)
    requires Lawful(j, steps) && Allowed(j, Replay(j, steps), s)
    ensures Lawful(j, steps + [s]) && Replay(j, steps + [s]) == Do(j, Replay(j, steps), s)
  {
    assert (steps + [s])[..|steps|] == steps;
  }

  /** One more item, with what `disasm` said about it. */
  lemma ItemStep(j: Job, steps: seq<Step>, v: View, window: seq<Byte>, room: nat, a: Answer, n: nat)
    requires Lawful(j, steps) && v == Replay(j, steps) && Allowed(j, v, Item(window, room))
    requires a == Asked(j, v, window) && n == Length(j, v, a.length, room)
    ensures 1 <= n <= room && (Active(v.next) ==> n <= Gap(j, v))
    ensures Lawful(j, steps + [Item(window, room)])
    ensures Replay(j, steps + [Item(window, room)])
      == View(v.at + n, InsertedAll(v.heap, a.points), v.next, v.log + [Insn(Offset(j, v), window[..n])])
  {
    hide InsertedAll, Gap, Offset;
    OneStep(j, steps, Item(window, room));
  }

  lemma {:induction false} LawfulPrefix(j: Job, steps: seq<Step>, k: nat)
    requires Lawful(j, steps) && k <= |steps|
    ensures Lawful(j, steps[..k]) && Replay(j, steps[..k]).log <= Replay(j, steps).log
    decreases |steps|
  {
    if k < |steps| {
      var front := steps[..|steps| - 1];
      LawfulPrefix(j, front, k);
      assert front[..k] == steps[..k];
    } else {
      assert steps[..k] == steps;
    }
  }

  // ---------- The file is told ----------

  /** Whatever `disasm` says, the items and skips follow each other at their true places. */
  lemma {:induction false} RunIsTold(j: Job, steps: seq<Step>)
    requires Lawful(j, steps)
    ensures var v := Replay(j, steps); Told(v.log, j.data, j.origin) && Total(v.log) == v.at
  {
    if steps != [] {
      var front := steps[..|steps| - 1];
      RunIsTold(j, front);
      StepIsTold(j, Replay(j, front), steps[|steps| - 1]);
    }
  }

  lemma TrueStart(window: seq<Byte>, data: seq<Byte>, at: nat, room: nat, n: nat)
    requires n <= room <= |window| && at + room <= |data| && window[..room] == data[at..at + room]
    ensures window[..n] == data[at..at + n]
  {
    assert window[..n] == window[..room][..n];
  }

  lemma StepIsTold(j: Job, v: View, s: Step)
    requires Told(v.log, j.data, j.origin) && Total(v.log) == v.at && Allowed(j, v, s)
    ensures var w := Do(j, v, s); Told(w.log, j.data, j.origin) && Total(w.log) == w.at
  {
    match s
    case Item(window, room) =>
      var n := Length(j, v, Asked(j, v, window).length, room);
      TrueStart(window, j.data, v.at, room, n);
      OneMoreEvent(v.log, Insn(Offset(j, v), window[..n]), j.data, j.origin);
    case Pass =>
      if v.next.length > 0 {
        OneMoreEvent(v.log, Skip(Offset(j, v), v.next.length), j.data, j.origin);
      } else {
        assert v.log + [] == v.log;
      }
  }

  // ---------- The heap during a run ----------

  lemma {:induction false} InsertedAllIs(h: seq<Sync>, points: seq<Word32>)
    requires Ordered(h)
    ensures Ordered(InsertedAll(h, points))
    ensures forall s :: s in InsertedAll(h, points) <==> s in h || (s.length == 0 && s.pos in points)
  {
    if points != [] {
      var n := |points| - 1;
      InsertedAllIs(h, points[..n]);
      var before, s := InsertedAll(h, points[..n]), Sync(points[n], 0);
      InsertedIsOrdered(before, s);
      assert points == points[..n] + [points[n]];
      Split(before, [s], Inserted(before, s));
    }
  }

  /** The first entry is the sync point in force, or one that was added before it. */
  ghost predicate Rooted(h: seq<Sync>, next: Sync) {
    Active(next) ==> h != [] && (First(h) == next || (First(h).length == 0 && First(h).pos < next.pos))
  }

  lemma {:induction false} InsertedAllRooted(h: seq<Sync>, next: Sync, points: seq<Word32>)
    requires Ordered(h) && Rooted(h, next)
    ensures Rooted(InsertedAll(h, points), next)
  {
    if points != [] {
      var n := |points| - 1;
      InsertedAllRooted(h, next, points[..n]);
      InsertedAllIs(h, points[..n]);
      InsertedFirst(InsertedAll(h, points[..n]), Sync(points[n], 0));
    }
  }

  /** After a call of next_sync there is a sync point in force exactly when the heap is not empty. */
  lemma CalledRooted(h: seq<Sync>, position: Word32)
    requires Ordered(h)
    ensures var r := Pending(h, position);
      Ordered(r) && Rooted(r, First(r)) && (Active(First(r)) <==> r != [])
  {
    var gone := PendingIs(h, position);
  }

  lemma StepIsRooted(j: Job, v: View, s: Step)
    requires Ordered(v.heap) && Rooted(v.heap, v.next)
    ensures var w := Do(j, v, s); Ordered(w.heap) && Rooted(w.heap, w.next)
  {
    hide Pending, InsertedAll, Ordered, Rooted, Taken, Length, Skipped;
    match s
    case Item(window, _) =>
      InsertedAllIs(v.heap, Asked(j, v, window).points);
      InsertedAllRooted(v.heap, v.next, Asked(j, v, window).points);
    case Pass =>
      CalledRooted(v.heap, Plus(j.origin, v.at + v.next.length));
  }

  lemma {:induction false} RunIsRooted(j: Job, steps: seq<Step>)
    requires Ordered(j.heap) && Lawful(j, steps)
    ensures var v := Replay(j, steps); Ordered(v.heap) && Rooted(v.heap, v.next)
  {
    if steps == [] {
      CalledRooted(j.heap, j.origin);
    } else {
      var front := steps[..|steps| - 1];
      RunIsRooted(j, front);
      StepIsRooted(j, Replay(j, front), steps[|steps| - 1]);
    }
  }

  /** A passed sync point leaves the heap smaller, unless an added one is ahead after a wrap around. */
  lemma PassGoesOn(j: Job, v: View)
    requires Ordered(v.heap) && Rooted(v.heap, v.next) && Allowed(j, v, Pass)
    ensures var w := Do(j, v, Pass);
      |w.heap| < |v.heap| || (w.heap == v.heap && Active(w.next) && Offset(j, w) != w.next.pos)
  {
    PlusPlus(j.origin, v.at, v.next.length);
    var r := First(v.heap);
    if Past(r, Plus(v.next.pos, v.next.length)) {
      assert |Removed(v.heap)| < |v.heap|;
    }
  }

  // ---------- Chunks do not matter ----------

  predicate Within(a: Answer, m: nat) {
    0 < a.length <= m
  }

  /** `disasm` looks at no more bytes than its instruction has, and no instruction is longer than the source provides
      for. */
  ghost predicate Local(disasm: (seq<Byte>, Word32) -> Answer) {
    && (forall w, o :: disasm(w, o).length <= 32)
    && forall w, x, o, m {:trigger disasm(w, o), disasm(x, o), w[..m]} ::
      0 <= m <= |w| && m <= |x| && w[..m] == x[..m] ==>
        var a, b := disasm(w, o), disasm(x, o);
        a == b || (!Within(a, m) && !Within(b, m) && a.points == b.points)
  }

  lemma SameRoom(j: Job, v: View, s: Step, t: Step)
    requires Allowed(j, v, s) && Allowed(j, v, t) && s.Item? && t.Item? && s.room < t.room
    ensures s.room >= INSN_MAX
  {
  }

  lemma SameLength(j: Job, v: View, s: Step, t: Step, a: Answer, b: Answer, m: nat)
    requires Allowed(j, v, s) && Allowed(j, v, t) && s.Item? && t.Item?
      && m == if s.room < t.room then s.room else t.room
    requires a == b || (!Within(a, m) && !Within(b, m))
    requires a.length <= INSN_MAX && b.length <= INSN_MAX
    ensures 1 <= Length(j, v, a.length, s.room) == Length(j, v, b.length, t.room) <= m
  {
    if s.room < t.room {
      SameRoom(j, v, s, t);
    } else if t.room < s.room {
      SameRoom(j, v, t, s);
    }
    hide Gap;
  }

  lemma SameAnswer(disasm: (seq<Byte>, Word32) -> Answer, w: seq<Byte>, x: seq<Byte>, o: Word32, m: nat)
    requires Local(disasm) && m <= |w| && m <= |x| && w[..m] == x[..m]
    ensures var a, b := disasm(w, o), disasm(x, o);
      && a.points == b.points && a.length <= INSN_MAX && b.length <= INSN_MAX
      && (a == b || (!Within(a, m) && !Within(b, m)))
  {
  }

  lemma SameItem(j: Job, v: View, s: Step, t: Step)
    requires Local(j.disasm) && Allowed(j, v, s) && Allowed(j, v, t)
    ensures Do(j, v, s) == Do(j, v, t)
  {
    hide InsertedAll, Pending, Local, Gap, Offset, Length, Within, Enough;
    if s.Item? && t.Item? {
      var m := if s.room < t.room then s.room else t.room;
      TrueStart(s.window, j.data, v.at, s.room, m);
      TrueStart(t.window, j.data, v.at, t.room, m);
      SameAnswer(j.disasm, s.window, t.window, Offset(j, v), m);
      var a, b := Asked(j, v, s.window), Asked(j, v, t.window);
      SameLength(j, v, s, t, a, b, m);
      var n := Length(j, v, a.length, s.room);
      TrueStart(s.window, j.data, v.at, s.room, n);
      TrueStart(t.window, j.data, v.at, t.room, n);
    } else {
      NotBoth(j, v, s, t);
    }
  }

  /** At the sync point itself no byte is asked about. */
  lemma NotBoth(j: Job, v: View, s: Step, t: Step)
    requires Allowed(j, v, s) && Allowed(j, v, t)
    ensures s.Item? <==> t.Item?
  {
  }

  /** However the file is read, the listing is the same; runs differ only in where they stop after the end of the
      file. */
  lemma {:induction false} ChunksDoNotMatter(j: Job, steps: seq<Step>, others: seq<Step>)
    requires Local(j.disasm) && Lawful(j, steps) && Lawful(j, others) && |steps| <= |others|
    ensures Replay(j, steps) == Replay(j, others[..|steps|]) && Replay(j, steps).log <= Replay(j, others).log
  {
    var n := |steps|;
    LawfulPrefix(j, others, n);
    if n > 0 {
      var front := steps[..n - 1];
      LawfulPrefix(j, others, n - 1);
      ChunksDoNotMatter(j, front, others);
      assert others[..n][..n - 1] == others[..n - 1];
      SameItem(j, Replay(j, front), steps[n - 1], others[n - 1]);
    }
  }

  // ---------- Added points that nobody waits for ----------

  /** The same `disasm` without `-a`. */
  function Muted(j: Job): Job {
    j.(disasm := (w: seq<Byte>, o: Word32) => Answer(j.disasm(w, o).length, []))
  }

  /** Without a sync point to begin with, added ones are never looked at. */
  lemma {:induction false} UnsyncedPointsAreIgnored(j: Job, steps: seq<Step>)
    requires j.heap == [] && Lawful(j, steps)
    ensures Lawful(Muted(j), steps) && !Active(Replay(j, steps).next)
    ensures var v, w := Replay(j, steps), Replay(Muted(j), steps); v.at == w.at && v.next == w.next && v.log == w.log
  {
    hide InsertedAll, Plus, Minus;
    if steps != [] {
      UnsyncedPointsAreIgnored(j, steps[..|steps| - 1]);
      assert Muted(j).data == j.data && Muted(j).origin == j.origin;
    }
  }

  /** Every instruction is two bytes long and refers to its own second byte. */
  function IntoItself(data: seq<Byte>): Job {
    Job(data, 0, [], (_, o: Word32) => Answer(2, [Plus(o, 1)]))
  }

  /** Then the first item lies across the point that was added for it. */
  lemma AddedPointIsRunOver(data: seq<Byte>, steps: seq<Step>)
    requires |data| >= 2 && Lawful(IntoItself(data), steps) && Replay(IntoItself(data), steps).at >= |data|
    ensures var log := Replay(IntoItself(data), steps).log; log != [] && log[0] == Insn(0, data[..2])
    ensures Sync(1, 0) in Replay(IntoItself(data), steps[..1]).heap
  {
    var j := IntoItself(data);
    assert steps != [];
    LawfulPrefix(j, steps, 1);
    var one := steps[..1];
    assert one[..0] == [] && one[0] == steps[0];
    assert Replay(j, one[..0]) == Beginning(j);
    var s := one[0];
    assert s.window[..2] == s.window[..s.room][..2] == data[..2];
    InsertedAllIs([], [Plus(0, 1)]);
    assert Plus(0, 1) in [Plus(0, 1)];
    assert Replay(j, one) == Do(j, Beginning(j), s);
  }
}
