/**
 Multi-pass label resolution: the pass loop of `AssembleFile` (asm/aasm-assembler.cpp), label
 definition and redefinition (asm/aasm-label.cpp) and the label, EQU and size steps of a line
 (asm/aasm-statement.cpp).

 How many bytes a statement takes and what an EQU expression is worth are functions of the text,
 the label table and the location; nothing else is assumed about them.
 */
module PassLoop {
  import opened Common

  datatype Entry = Entry(segment: int, offset: int)

  type Labels = map<string, Entry>

  datatype Line =
    | Section(segment: int)                          // [SECTION n]
    | Statement(mark: Option<string>, text: string) // an instruction or data, perhaps labelled
    | Equ(name: string, expr: string)                // name EQU expr

  /** The parts the pass loop only calls. */
  datatype Oracle = Oracle(
    size: (string, Labels, Entry) -> int,
    value: (string, Labels, Entry) -> Entry)

  /** First pass, a pass that redefines labels, or the last pass, in which EQU defines nothing. */
  datatype Mode = First | Middle | Last

  datatype PassState = PassState(
    labels: Labels,
    changed: nat,            // global_offset_changed
    moved: nat,              // redefinitions that changed a segment; the source does not count them
    offsets: map<int, int>,  // running offset of each section
    segment: int,
    failed: bool)            // an error was reported

  const DEFAULT_SEGMENT := 0
  const STALL_LIMIT := 997
  /** (INT_MAX >> 1) + 2 */
  const PASS_MAX := 0x4000_0001

  // ---------- One pass ----------

  function OffsetIn(offsets: map<int, int>, segment: int): int {
    if segment in offsets then offsets[segment] else 0
  }

  function Here(s: PassState): Entry {
    Entry(s.segment, OffsetIn(s.offsets, s.segment))
  }

  /** `Define`: a second definition is an error and changes nothing. */
  function Define(s: PassState, name: string, e: Entry): PassState {
    if name in s.labels then s.(failed := true) else s.(labels := s.labels[name := e])
  }

  /** `Redefine`: a new offset is counted. */
  function Redefine(s: PassState, name: string, e: Entry): PassState {
    var offsetChanged := name !in s.labels || s.labels[name].offset != e.offset;
    var segmentChanged := name !in s.labels || s.labels[name].segment != e.segment;
    s.(labels := s.labels[name := e],
       changed := s.changed + if offsetChanged then 1 else 0,
       moved := s.moved + if segmentChanged then 1 else 0)
  }

  function SetLabel(mode: Mode, s: PassState, name: string, e: Entry): PassState {
    if mode == First then Define(s, name, e) else Redefine(s, name, e)
  }

  function Advance(o: Oracle, s: PassState, text: string): PassState {
    var here := Here(s);
    s.(offsets := s.offsets[s.segment := here.offset + o.size(text, s.labels, here)])
  }

  function Process(o: Oracle, mode: Mode, s: PassState, l: Line): PassState {
    match l
    case Section(segment) => s.(segment := segment)
    case Statement(mark, text) =>
      Advance(o, if mark.Some? then SetLabel(mode, s, mark.value, Here(s)) else s, text)
    case Equ(name, expr) =>
      if mode == Last then s else SetLabel(mode, s, name, o.value(expr, s.labels, Here(s)))
  }

  function Begin(labels: Labels): PassState {
    PassState(labels, 0, 0, map[], DEFAULT_SEGMENT, false)
  }

  /** The state after the first `k` lines of a pass that starts with the given labels. */
  function After(o: Oracle, program: seq<Line>, mode: Mode, labels: Labels, k: nat): PassState
    requires k <= |program|
  {
    if k == 0 then Begin(labels)
    else Process(o, mode, After(o, program, mode, labels, k - 1), program[k - 1])
  }

  function Pass(o: Oracle, program: seq<Line>, mode: Mode, labels: Labels): PassState {
    After(o, program, mode, labels, |program|)
  }

  // ---------- What a settled label table is ----------

  function SegmentAt(program: seq<Line>, k: nat): int
    requires k <= |program|
  {
    if k == 0 then DEFAULT_SEGMENT
    else if program[k - 1].Section? then program[k - 1].segment
    else SegmentAt(program, k - 1)
  }

  /** The sum of the sizes of the statements among the first `k` lines that lie in `segment`. */
  function SizeBefore(o: Oracle, program: seq<Line>, labels: Labels, k: nat, segment: int): int
    requires k <= |program|
  {
    if k == 0 then 0
    else
      var before := SizeBefore(o, program, labels, k - 1, segment);
      var l := program[k - 1];
      if l.Statement? && SegmentAt(program, k - 1) == segment
      then before + o.size(l.text, labels, Entry(segment, before))
      else before
  }

  function Place(o: Oracle, program: seq<Line>, labels: Labels, k: nat): Entry
    requires k <= |program|
  {
    Entry(SegmentAt(program, k), SizeBefore(o, program, labels, k, SegmentAt(program, k)))
  }

  /** Every label stands for its place, and every EQU for its expression's value under the table itself. */
  ghost predicate Settled(o: Oracle, program: seq<Line>, labels: Labels, k: nat)
    requires k <= |program|
  {
    forall i :: 0 <= i < k ==> LineSettled(o, program, labels, i)
  }

  ghost predicate LineSettled(o: Oracle, program: seq<Line>, labels: Labels, i: nat)
    requires i < |program|
  {
    match program[i]
    case Section(_) => true
    case Statement(mark, _) =>
      mark.Some? ==> mark.value in labels && labels[mark.value] == Place(o, program, labels, i)
    case Equ(name, expr) =>
      name in labels && labels[name] == o.value(expr, labels, Place(o, program, labels, i))
  }

  // ---------- A pass that changes nothing ----------

  lemma {:induction false} ChangesGrow(o: Oracle, program: seq<Line>, mode: Mode, labels: Labels, j: nat, k: nat)
    requires j <= k <= |program|
    ensures After(o, program, mode, labels, j).changed <= After(o, program, mode, labels, k).changed
    ensures After(o, program, mode, labels, j).moved <= After(o, program, mode, labels, k).moved
    ensures After(o, program, mode, labels, j).failed ==> After(o, program, mode, labels, k).failed
    decreases k - j
  {
    if j < k {
      ChangesGrow(o, program, mode, labels, j, k - 1);
    }
  }

  /** Where a pass stands after `k` lines if no label has been changed so far. */
  ghost predicate Steady(o: Oracle, program: seq<Line>, labels: Labels, s: PassState, k: nat)
    requires k <= |program|
  {
    && s.labels == labels && s.changed == 0 && s.moved == 0 && !s.failed
    && s.segment == SegmentAt(program, k)
    && forall seg {:trigger OffsetIn(s.offsets, seg)} ::
      OffsetIn(s.offsets, seg)
      == SizeBefore(o, program, labels, k, seg)
  }

  lemma {:induction false} SteadyPrefix(o: Oracle, program: seq<Line>, mode: Mode, labels: Labels, k: nat)
    requires k <= |program| && mode != First
    requires var s := After(o, program, mode, labels, k); s.changed == 0 && s.moved == 0
    ensures Steady(o, program, labels, After(o, program, mode, labels, k), k)
    ensures forall i :: 0 <= i < k && (mode == Middle || !program[i].Equ?) ==> LineSettled(o, program, labels, i)
  {
    if k > 0 {
      ChangesGrow(o, program, mode, labels, k - 1, k);
      SteadyPrefix(o, program, mode, labels, k - 1);
      var s := After(o, program, mode, labels, k - 1);
      SteadyLine(o, program, mode, labels, s, k - 1);
    }
  }

  lemma SteadyLine(o: Oracle, program: seq<Line>, mode: Mode, labels: Labels, s: PassState, k: nat)
    requires k < |program| && mode != First && Steady(o, program, labels, s, k)
    requires var t := Process(o, mode, s, program[k]); t.changed == 0 && t.moved == 0
    ensures Steady(o, program, labels, Process(o, mode, s, program[k]), k + 1)
    ensures mode == Middle || !program[k].Equ? ==> LineSettled(o, program, labels, k)
  {
    assert Here(s) == Place(o, program, labels, k);
    match program[k]
    case Section(_) =>
    case Statement(mark, text) =>
      if mark.Some? {
        assert labels[mark.value := Here(s)] == labels;
      }
      var t := Process(o, mode, s, program[k]);
      forall seg: int
        ensures OffsetIn(t.offsets, seg) == SizeBefore(o, program, labels, k + 1, seg)
      {
        assert OffsetIn(s.offsets, seg) == SizeBefore(o, program, labels, k, seg);
      }
    case Equ(name, expr) =>
      if mode == Middle {
        assert labels[name := o.value(expr, labels, Here(s))] == labels;
      }
  }

  /** Conversely, a settled table goes through any later pass, the last one included, unchanged. */
  lemma {:induction false} SettledPrefix(o: Oracle, program: seq<Line>, mode: Mode, labels: Labels, k: nat)
    requires k <= |program| && mode != First && Settled(o, program, labels, |program|)
    ensures Steady(o, program, labels, After(o, program, mode, labels, k), k)
  {
    if k > 0 {
      SettledPrefix(o, program, mode, labels, k - 1);
      var s := After(o, program, mode, labels, k - 1);
      assert LineSettled(o, program, labels, k - 1);
      assert Here(s) == Place(o, program, labels, k - 1);
      SteadyLine(o, program, mode, labels, s, k - 1);
    }
  }

  /** A pass after the first leaves the table alone exactly when the table is settled. */
  lemma UnchangedIffSettled(o: Oracle, program: seq<Line>, labels: Labels)
    ensures var s := Pass(o, program, Middle, labels);
      s.changed == 0 && s.moved == 0 <==> Settled(o, program, labels, |program|)
    ensures Settled(o, program, labels, |program|) ==>
      forall mode | mode != First ::
        var s := Pass(o, program, mode, labels); s.labels == labels && s.changed == 0 && !s.failed
  {
    if Pass(o, program, Middle, labels).changed == 0 && Pass(o, program, Middle, labels).moved == 0 {
      SteadyPrefix(o, program, Middle, labels, |program|);
    }
    if Settled(o, program, labels, |program|) {
      SettledPrefix(o, program, Middle, labels, |program|);
      SettledPrefix(o, program, Last, labels, |program|);
    }
  }

  // ---------- Segments ----------

  function NameOf(l: Line): Option<string> {
    match l
    case Section(_) => None
    case Statement(mark, _) => mark
    case Equ(name, _) => Some(name)
  }

  /** Labels have the segments that `segs` gives them, and those of the first `k` lines are there. */
  ghost predicate Agrees(program: seq<Line>, labels: Labels, segs: map<string, int>, k: nat)
    requires k <= |program|
  {
    && (forall name :: name in labels ==> name in segs && labels[name].segment == segs[name])
    && forall i :: 0 <= i < k && NameOf(program[i]).Some? ==> NameOf(program[i]).value in labels
  }

  /** Line `i` gives its label the segment in `segs`, an EQU under every table that agrees so far and at every offset.
      */
  ghost predicate LineFixed(o: Oracle, program: seq<Line>, segs: map<string, int>, i: nat)
    requires i < |program|
  {
    match program[i]
    case Section(_) => true
    case Statement(mark, _) => mark.Some? ==> mark.value in segs && segs[mark.value] == SegmentAt(program, i)
    case Equ(name, expr) =>
      name in segs && forall labels: Labels, offset: int :: Agrees(program, labels, segs, i) ==>
        o.value(expr, labels, Entry(SegmentAt(program, i), offset)).segment == segs[name]
  }

  ghost predicate FixedBy(o: Oracle, program: seq<Line>, segs: map<string, int>) {
    forall i :: 0 <= i < |program| ==> LineFixed(o, program, segs, i)
  }

  /** No label's segment moves between passes: each has one that every line agrees with, once the lines before it do. */
  ghost predicate SegmentsFixed(o: Oracle, program: seq<Line>) {
    exists segs :: FixedBy(o, program, segs)
  }

  ghost predicate SegmentsRight(o: Oracle, program: seq<Line>, labels: Labels, k: nat)
    requires k <= |program|
  {
    exists segs :: FixedBy(o, program, segs) && Agrees(program, labels, segs, k)
  }

  lemma {:induction false} SegmentFollows(o: Oracle, program: seq<Line>, mode: Mode, labels: Labels, k: nat)
    requires k <= |program|
    ensures After(o, program, mode, labels, k).segment == SegmentAt(program, k)
  {
    if k > 0 {
      SegmentFollows(o, program, mode, labels, k - 1);
    }
  }

  lemma {:induction false} FirstPassSegments(o: Oracle, program: seq<Line>, segs: map<string, int>, k: nat)
    requires k <= |program| && FixedBy(o, program, segs)
    requires !After(o, program, First, map[], k).failed
    ensures Agrees(program, After(o, program, First, map[], k).labels, segs, k)
  {
    if k > 0 {
      ChangesGrow(o, program, First, map[], k - 1, k);
      FirstPassSegments(o, program, segs, k - 1);
      SegmentFollows(o, program, First, map[], k - 1);
      assert LineFixed(o, program, segs, k - 1);
    }
  }

  lemma {:induction false} LaterPassSegments(o: Oracle, program: seq<Line>, mode: Mode, labels: Labels,
                                             segs: map<string, int>, k: nat)
    requires k <= |program| && mode != First && FixedBy(o, program, segs)
    requires Agrees(program, labels, segs, |program|)
    ensures Agrees(program, After(o, program, mode, labels, k).labels, segs, |program|)
    ensures After(o, program, mode, labels, k).moved == 0 && !After(o, program, mode, labels, k).failed
  {
    if k > 0 {
      LaterPassSegments(o, program, mode, labels, segs, k - 1);
      SegmentFollows(o, program, mode, labels, k - 1);
      assert LineFixed(o, program, segs, k - 1);
      assert Agrees(program, After(o, program, mode, labels, k - 1).labels, segs, k - 1);
    }
  }

  /** With fixed segments, the source's own test - no offset changed - means the table is settled. */
  lemma NoOffsetChangeMeansSettled(o: Oracle, program: seq<Line>, labels: Labels)
    requires SegmentsRight(o, program, labels, |program|)
    ensures Pass(o, program, Middle, labels).changed == 0 <==> Settled(o, program, labels, |program|)
  {
    var segs :| FixedBy(o, program, segs) && Agrees(program, labels, segs, |program|);
    LaterPassSegments(o, program, Middle, labels, segs, |program|);
    UnchangedIffSettled(o, program, labels);
  }

  // ---------- Programs whose segments are fixed ----------

  ghost predicate DistinctNames(program: seq<Line>) {
    forall i, j :: 0 <= i < j < |program| && NameOf(program[j]).Some? ==> NameOf(program[i]) != NameOf(program[j])
  }

  /** Two tables that give the labels of the first `k` lines the same segments. */
  ghost predicate SameSegments(program: seq<Line>, t: Labels, u: Labels, k: nat)
    requires k <= |program|
  {
    forall i :: 0 <= i < k && NameOf(program[i]).Some? ==>
      var name := NameOf(program[i]).value; name in t && name in u && t[name].segment == u[name].segment
  }

  /** The segment of an EQU depends on nothing but the segments of labels defined before it and its own section. */
  ghost predicate LooksBack(o: Oracle, program: seq<Line>, i: nat)
    requires i < |program| && program[i].Equ?
  {
    forall t: Labels, u: Labels, a: int, b: int :: SameSegments(program, t, u, i) ==>
      o.value(program[i].expr, t, Entry(SegmentAt(program, i), a)).segment
        == o.value(program[i].expr, u, Entry(SegmentAt(program, i), b)).segment
  }

  /** The segments of the labels of the first `k` lines, as a table with offset 0 everywhere. */
  function BackTable(o: Oracle, program: seq<Line>, k: nat): Labels
    requires k <= |program|
  {
    if k == 0 then map[]
    else
      var before, here := BackTable(o, program, k - 1), Entry(SegmentAt(program, k - 1), 0);
      match program[k - 1]
      case Section(_) => before
      case Statement(mark, _) => if mark.Some? then before[mark.value := here] else before
      case Equ(name, expr) => before[name := o.value(expr, before, here)]
  }

  lemma {:induction false} BackTableKeeps(o: Oracle, program: seq<Line>, i: nat, k: nat)
    requires i < k <= |program| && DistinctNames(program) && NameOf(program[i]).Some?
    ensures var name := NameOf(program[i]).value;
      && name in BackTable(o, program, k) && name in BackTable(o, program, i + 1)
      && BackTable(o, program, k)[name] == BackTable(o, program, i + 1)[name]
    decreases k
  {
    if i < k - 1 {
      BackTableKeeps(o, program, i, k - 1);
      assert NameOf(program[k - 1]).Some? ==> NameOf(program[i]) != NameOf(program[k - 1]);
    }
  }

  /** So whenever no name is defined twice and EQUs look back: `x EQU $` and an EQU of an earlier label among them. */
  lemma LookingBackIsFixed(o: Oracle, program: seq<Line>)
    requires DistinctNames(program)
    requires forall i :: 0 <= i < |program| && program[i].Equ? ==> LooksBack(o, program, i)
    ensures SegmentsFixed(o, program)
  {
    var all := BackTable(o, program, |program|);
    var segs := map name | name in all :: all[name].segment;
    forall i | 0 <= i < |program|
      ensures LineFixed(o, program, segs, i)
    {
      if NameOf(program[i]).Some? {
        BackTableKeeps(o, program, i, |program|);
      }
      if program[i].Equ? {
        EquFixed(o, program, segs, all, i);
      }
    }
    assert FixedBy(o, program, segs);
  }

  lemma EquFixed(o: Oracle, program: seq<Line>, segs: map<string, int>, all: Labels, i: nat)
    requires i < |program| && program[i].Equ? && DistinctNames(program) && LooksBack(o, program, i)
    requires all == BackTable(o, program, |program|) && segs == map name | name in all :: all[name].segment
    requires program[i].name in all && all[program[i].name] == BackTable(o, program, i + 1)[program[i].name]
    ensures LineFixed(o, program, segs, i)
  {
    var before := BackTable(o, program, i);
    forall labels: Labels, offset: int | Agrees(program, labels, segs, i)
      ensures o.value(program[i].expr, labels, Entry(SegmentAt(program, i), offset)).segment == segs[program[i].name]
    {
      forall j | 0 <= j < i && NameOf(program[j]).Some?
        ensures var name := NameOf(program[j]).value;
          name in before && name in labels && before[name].segment == labels[name].segment
      {
        BackTableKeeps(o, program, j, i);
        BackTableKeeps(o, program, j, |program|);
      }
      assert SameSegments(program, before, labels, i);
    }
  }

  /** `d` in section 2, `x EQU $` and `y EQU d`. */
  function Located(): seq<Line> {
    [Section(2), Statement(Some("d"), "nop"), Equ("x", "$"), Equ("y", "d")]
  }

  function LocatedOracle(): Oracle {
    Oracle((_, _, _) => 1,
           (expr: string, labels: Labels, here: Entry) =>
             if expr == "$" then here else if expr in labels then labels[expr] else Entry(-1, 0))
  }

  lemma LocatedIsFixed()
    ensures SegmentsFixed(LocatedOracle(), Located())
  {
    var o, p := LocatedOracle(), Located();
    assert p[1] == Statement(Some("d"), "nop") && p[2] == Equ("x", "$") && p[3] == Equ("y", "d");
    assert NameOf(p[1]) == Some("d");
    assert LooksBack(o, p, 2);
    assert LooksBack(o, p, 3);
    LookingBackIsFixed(o, p);
  }

  // ---------- An EQU whose segment moves ----------

  /** `a EQU b`, `b EQU c`, `c EQU d`, then `d` at offset 0 of section 2. */
  function Chain(): seq<Line> {
    [Equ("a", "b"), Equ("b", "c"), Equ("c", "d"), Section(2), Statement(Some("d"), "nop")]
  }

  /** An EQU of a label: what the label is, or nothing in no segment while it is unknown. */
  function ChainOracle(): Oracle {
    Oracle((_, _, _) => 1, (expr: string, labels: Labels, _) => if expr in labels then labels[expr] else Entry(-1, 0))
  }

  function ChainLabels(a: int, b: int, c: int): Labels {
    map["a" := Entry(a, 0), "b" := Entry(b, 0), "c" := Entry(c, 0), "d" := Entry(2, 0)]
  }

  lemma ChainFirstPass()
    ensures Pass(ChainOracle(), Chain(), First, map[]).labels == ChainLabels(-1, -1, -1)
    ensures !Pass(ChainOracle(), Chain(), First, map[]).failed
  {
    var o, p := ChainOracle(), Chain();
    var none: Labels := map[];
    assert After(o, p, First, none, 0) == Begin(none);
    var one := After(o, p, First, none, 1);
    assert one == Begin(map["a" := Entry(-1, 0)]);
    var two := After(o, p, First, none, 2);
    assert two == Begin(map["a" := Entry(-1, 0), "b" := Entry(-1, 0)]);
    var three := After(o, p, First, none, 3);
    assert three == Begin(map["a" := Entry(-1, 0), "b" := Entry(-1, 0), "c" := Entry(-1, 0)]);
    var four := After(o, p, First, none, 4);
    assert four == three.(segment := 2);
  }

  /** An EQU of a label, in a later pass, with the offset that it had. */
  lemma ChainEqu(s: PassState, name: string, other: string)
    requires name in s.labels && other in s.labels && s.labels[name].offset == s.labels[other].offset
    ensures var t := Process(ChainOracle(), Middle, s, Equ(name, other));
      t.labels == s.labels[name := s.labels[other]] && t.changed == s.changed && t.offsets == s.offsets
  {
  }

  lemma ChainThreeLines(a: int, b: int, c: int)
    ensures var s := After(ChainOracle(), Chain(), Middle, ChainLabels(a, b, c), 3);
      s.labels == ChainLabels(b, c, 2) && s.changed == 0 && s.offsets == map[]
  {
    hide Process, Redefine;
    var o, p, labels := ChainOracle(), Chain(), ChainLabels(a, b, c);
    assert p[0] == Equ("a", "b") && p[1] == Equ("b", "c") && p[2] == Equ("c", "d");
    var none := After(o, p, Middle, labels, 0);
    ChainEqu(none, "a", "b");
    var one := After(o, p, Middle, labels, 1);
    assert one.labels == ChainLabels(b, b, c);
    ChainEqu(one, "b", "c");
    var two := After(o, p, Middle, labels, 2);
    assert two.labels == ChainLabels(b, c, c);
    ChainEqu(two, "c", "d");
  }

  /** A later pass over the chain moves each segment one EQU further and changes no offset. */
  lemma ChainLaterPass(a: int, b: int, c: int)
    ensures Pass(ChainOracle(), Chain(), Middle, ChainLabels(a, b, c)).labels == ChainLabels(b, c, 2)
    ensures Pass(ChainOracle(), Chain(), Middle, ChainLabels(a, b, c)).changed == 0
  {
    var o, p, labels := ChainOracle(), Chain(), ChainLabels(a, b, c);
    ChainThreeLines(a, b, c);
    var three := After(o, p, Middle, labels, 3);
    var four := After(o, p, Middle, labels, 4);
    assert four == three.(segment := 2);
  }

  /** Tables without `d` and with it agree with the same segments, and give `c EQU d` different ones. */
  lemma ChainTables(segs: map<string, int>)
    requires "a" in segs && "b" in segs && "d" in segs && segs["d"] == 2
    ensures !LineFixed(ChainOracle(), Chain(), segs, 2)
  {
    var o, p := ChainOracle(), Chain();
    var t: Labels := map["a" := Entry(segs["a"], 0), "b" := Entry(segs["b"], 0)];
    var u := t["d" := Entry(2, 0)];
    assert p[2] == Equ("c", "d") && SegmentAt(p, 2) == 0;
    assert Agrees(p, t, segs, 2) && Agrees(p, u, segs, 2);
    assert o.value("d", t, Entry(0, 0)).segment == -1 && o.value("d", u, Entry(0, 0)).segment == 2;
  }

  /** `c EQU d` before `d` is known, and after. */
  lemma ChainMoves(segs: map<string, int>)
    ensures !FixedBy(ChainOracle(), Chain(), segs)
  {
    var o, p := ChainOracle(), Chain();
    assert p[0] == Equ("a", "b") && p[1] == Equ("b", "c") && p[4].Statement?;
    if FixedBy(o, p, segs) {
      assert LineFixed(o, p, segs, 0) && LineFixed(o, p, segs, 1) && LineFixed(o, p, segs, 4);
      ChainTables(segs);
    }
  }

  /**
   Without fixed segments the test can be met too early. The second and third pass over the chain
   change no offset, so the fourth is the last and defines no EQU; `a` is left without a segment.
   */
  lemma NoOffsetChangeIsNotEnough()
    ensures var first := Pass(ChainOracle(), Chain(), First, map[]);
      var second := Pass(ChainOracle(), Chain(), Middle, first.labels);
      var third := Pass(ChainOracle(), Chain(), Middle, second.labels);
      && !first.failed && second.changed == 0 && third.changed == 0
      && third.labels == ChainLabels(-1, 2, 2)
      && !Settled(ChainOracle(), Chain(), third.labels, |Chain()|)
    ensures !SegmentsFixed(ChainOracle(), Chain())
  {
    if segs :| FixedBy(ChainOracle(), Chain(), segs) {
      ChainMoves(segs);
    }
    ChainFirstPass();
    ChainLaterPass(-1, -1, -1);
    ChainLaterPass(-1, -1, 2);
    assert !LineSettled(ChainOracle(), Chain(), ChainLabels(-1, 2, 2), 0);
  }

  // ---------- The pass loop ----------

  function NamesIn(program: seq<Line>, k: nat): (n: nat)
    requires k <= |program|
  {
    if k == 0 then 0 else NamesIn(program, k - 1) + if NameOf(program[k - 1]).Some? then 1 else 0
  }

  lemma {:induction false} ChangesBound(o: Oracle, program: seq<Line>, mode: Mode, labels: Labels, k: nat)
    requires k <= |program|
    ensures After(o, program, mode, labels, k).changed <= NamesIn(program, k)
    ensures mode == First ==> After(o, program, mode, labels, k).changed == 0
  {
    if k > 0 {
      ChangesBound(o, program, mode, labels, k - 1);
    }
  }

  /** `zeros` passes in phase 0, then those of phase 1 and phase 2 that have begun. */
  ghost function Phases(zeros: nat, phase: nat): seq<nat> {
    seq(zeros, _ => 0) + if phase == 0 then [] else if phase == 1 then [] else if phase == 2 then [1] else [1, 2]
  }

  lemma PhasesGrow(zeros: nat)
    ensures Phases(zeros, 0) + [0] == Phases(zeros + 1, 0) == Phases(zeros + 1, 1)
    ensures Phases(zeros, 1) + [1] == Phases(zeros, 2)
    ensures Phases(zeros, 2) + [2] == Phases(zeros, 3)
  {
  }

  /** What the loop makes of a pass. */
  datatype Outcome = NextPhase | FewerChanges | Stall

  /** The loop's own variables. */
  datatype Control = Control(pass0: nat, passn: nat, stallCount: nat, previousChanged: nat)

  /** The variables after a pass that reported `changed` offset changes. */
  function Judged(c: Control, changed: nat): Control {
    if (c.passn > 1 && changed == 0) || c.pass0 == 2 then c.(pass0 := c.pass0 + 1)
    else if 0 < changed < c.previousChanged then c.(previousChanged := changed, stallCount := 0)
    else c.(stallCount := c.stallCount + 1)
  }

  /** The last phase is over, or the loop has stalled too long. */
  predicate Over(c: Control) {
    c.pass0 > 2 || c.stallCount > STALL_LIMIT
  }

  /** The variables after `n` passes that report whatever `counts` says; the limit on the number of passes is left
      out. */
  function Passes(c: Control, counts: nat -> nat, n: nat): Control {
    if n == 0 then c
    else
      var b := Passes(c, counts, n - 1);
      if Over(b) then b else Judged(b, counts(n - 1)).(passn := b.passn + 1)
  }

  /** The loop ends whatever its passes report, and it needs no limit on their number for that. */
  lemma EveryRunEnds(start: Control, counts: nat -> nat)
    ensures exists n: nat :: Over(Passes(start, counts, n))
  {
    var n := RunEnds(start, counts, 0, start);
  }

  lemma {:induction false} RunEnds(start: Control, counts: nat -> nat, m: nat, c: Control) returns (n: nat)
    requires c == Passes(start, counts, m)
    ensures Over(Passes(start, counts, n))
    decreases 3 - c.pass0, c.previousChanged, STALL_LIMIT + 1 - c.stallCount
  {
    if Over(c) {
      n := m;
    } else {
      n := RunEnds(start, counts, m + 1, Passes(start, counts, m + 1));
    }
  }

  // ---------- Whole runs ----------

  /** The first pass, those up to the last, and the last. */
  function ModeOf(phases: seq<nat>, i: nat): Mode
    requires i < |phases|
  {
    if phases[i] == 2 then Last else if i == 0 then First else Middle
  }

  /** Pass `i` brings the next phase: the last one always does, the others but the first if no offset changed. */
  predicate Advances(phases: seq<nat>, counts: seq<nat>, i: nat)
    requires i < |phases| == |counts|
  {
    phases[i] == 2 || (i > 0 && counts[i] == 0)
  }

  /** Pass `i` reports fewer changes than every pass before it that reported any. */
  predicate Improves(counts: seq<nat>, i: nat)
    requires i < |counts|
  {
    0 < counts[i] < 0x4000_0001 && forall j :: 0 <= j < i && counts[j] > 0 ==> counts[i] < counts[j]
  }

  /** Of the first `n` passes, those since the last improvement that brought no new phase. */
  function Stalls(phases: seq<nat>, counts: seq<nat>, n: nat): nat
    requires n <= |phases| == |counts|
  {
    if n == 0 then 0
    else if Advances(phases, counts, n - 1) then Stalls(phases, counts, n - 1)
    else if Improves(counts, n - 1) then 0
    else Stalls(phases, counts, n - 1) + 1
  }

  /** What happened in a run: the phase of each pass, the changes it reported, and the table before and after it. */
  datatype History = History(phases: seq<nat>, counts: seq<nat>, tables: seq<Labels>)

  /** Each pass works on the table that the one before it left, and in the phase that those before it brought. */
  ghost predicate IsHistory(o: Oracle, program: seq<Line>, h: History) {
    && |h.tables| == |h.phases| + 1 == |h.counts| + 1 && h.tables[0] == map[]
    && (h.phases != [] ==> h.phases[0] == 0)
    && (forall i :: 0 <= i < |h.phases| ==> PassIs(o, program, h, i))
    && forall i :: 0 <= i < |h.phases| - 1 ==>
      h.phases[i + 1] == h.phases[i] + if Advances(h.phases, h.counts, i) then 1 else 0
  }

  ghost predicate PassIs(o: Oracle, program: seq<Line>, h: History, i: nat)
    requires i < |h.phases| && |h.tables| == |h.phases| + 1 == |h.counts| + 1
  {
    var s := Pass(o, program, ModeOf(h.phases, i), h.tables[i]);
    h.counts[i] == s.changed && h.tables[i + 1] == s.labels
  }

  /** Pass `i` reported an error. */
  ghost predicate FailedIn(o: Oracle, program: seq<Line>, h: History, i: nat)
    requires i < |h.phases| && |h.tables| == |h.phases| + 1
  {
    Pass(o, program, ModeOf(h.phases, i), h.tables[i]).failed
  }

  /** After `n` passes the loop goes on: no error, no last phase, at most 997 stalls and not too many passes. */
  ghost predicate GoesOn(o: Oracle, program: seq<Line>, h: History, n: nat)
    requires n <= |h.phases| == |h.counts| && |h.tables| == |h.phases| + 1
  {
    && Stalls(h.phases, h.counts, n) <= 997 && n < 0x4000_0001
    && (n > 0 ==> !FailedIn(o, program, h, n - 1) && h.phases[n - 1] != 2)
  }

  /** The loop ends after these passes, and no sooner. */
  ghost predicate WholeRun(o: Oracle, program: seq<Line>, h: History) {
    && IsHistory(o, program, h) && h.phases != []
    && !GoesOn(o, program, h, |h.phases|) && forall n :: 0 <= n < |h.phases| ==> GoesOn(o, program, h, n)
  }

  /** It gives up if there was no error in the last pass and there were 998 stalls, or 2^30 + 1 passes. */
  ghost predicate GivesUp(o: Oracle, program: seq<Line>, h: History)
    requires h.phases != [] && |h.tables| == |h.phases| + 1 == |h.counts| + 1
  {
    var n := |h.phases|;
    !FailedIn(o, program, h, n - 1) && (Stalls(h.phases, h.counts, n) == 998 || n == 0x4000_0001)
  }

  /** The passes from `from` up to `n` that bring no new phase. */
  function Stalled(phases: seq<nat>, counts: seq<nat>, from: nat, n: nat): set<nat>
    requires n <= |phases| == |counts|
  {
    set i: nat | from <= i < n && !Advances(phases, counts, i)
  }

  lemma StalledOneMore(phases: seq<nat>, counts: seq<nat>, from: nat, n: nat)
    requires from <= n <= |phases| == |counts|
    ensures from == n ==> Stalled(phases, counts, from, n) == {}
    ensures from < n ==>
      |Stalled(phases, counts, from, n)|
      == |Stalled(phases, counts, from, n - 1)| + if Advances(phases, counts, n - 1) then 0 else 1
  {
    if from < n && !Advances(phases, counts, n - 1) {
      assert Stalled(phases, counts, from, n) == Stalled(phases, counts, from, n - 1) + {n - 1};
    } else if from < n {
      assert Stalled(phases, counts, from, n) == Stalled(phases, counts, from, n - 1);
    }
  }

  /** Stalls are the passes since some improvement, or since the beginning, without one among them; new phases aside. */
  lemma {:induction false} StallsMean(phases: seq<nat>, counts: seq<nat>, n: nat) returns (from: nat)
    requires n <= |phases| == |counts|
    ensures from <= n && Stalls(phases, counts, n) == |Stalled(phases, counts, from, n)|
    ensures from > 0 ==> Improves(counts, from - 1) && !Advances(phases, counts, from - 1)
    ensures forall i :: from <= i < n ==> Advances(phases, counts, i) || !Improves(counts, i)
  {
    hide Improves, Stalled;
    if n == 0 {
      from := 0;
      StalledOneMore(phases, counts, 0, 0);
    } else if !Advances(phases, counts, n - 1) && Improves(counts, n - 1) {
      from := n;
      StalledOneMore(phases, counts, n, n);
    } else {
      from := StallsMean(phases, counts, n - 1);
      StalledOneMore(phases, counts, from, n);
    }
  }

  lemma {:induction false} StallsAreFew(phases: seq<nat>, counts: seq<nat>, n: nat)
    requires n <= |phases| == |counts|
    ensures Stalls(phases, counts, n) <= n
  {
    if n > 0 {
      StallsAreFew(phases, counts, n - 1);
    }
  }

  /** The loop does not give up before it made 998 passes. */
  lemma GivingUpTakesTime(o: Oracle, program: seq<Line>, h: History)
    requires WholeRun(o, program, h) && GivesUp(o, program, h)
    ensures |h.phases| >= 998
  {
    StallsAreFew(h.phases, h.counts, |h.phases|);
  }

  /** If the first pass leaves a settled table, there are four passes, and the loop neither fails nor gives up. */
  lemma SettledRun(o: Oracle, program: seq<Line>, h: History)
    requires WholeRun(o, program, h)
    requires !Pass(o, program, First, map[]).failed
    requires Settled(o, program, Pass(o, program, First, map[]).labels, |program|)
    ensures h.phases == [0, 0, 1, 2] && !FailedIn(o, program, h, 3) && !GivesUp(o, program, h)
    ensures h.tables[4] == Pass(o, program, First, map[]).labels
  {
    hide Settled, Pass;
    var labels := Pass(o, program, First, map[]).labels;
    assert GoesOn(o, program, h, 0) && PassIs(o, program, h, 0);
    SettledPasses(o, program, labels);
    StallsAreFew(h.phases, h.counts, 1);
    assert |h.phases| > 1 && h.phases[1] == 0;
    SettledPass(o, program, h, labels, 1);
    assert |h.phases| > 2 && h.phases[2] == 1;
    SettledPass(o, program, h, labels, 2);
    assert |h.phases| > 3 && h.phases[3] == 2;
    SettledPass(o, program, h, labels, 3);
    assert !(|h.phases| > 4) by {
      assert |h.phases| > 4 ==> GoesOn(o, program, h, 4);
    }
    StallsAreFew(h.phases, h.counts, 4);
  }

  lemma SettledPasses(o: Oracle, program: seq<Line>, labels: Labels)
    requires Settled(o, program, labels, |program|)
    ensures var s := Pass(o, program, Middle, labels); s.labels == labels && s.changed == 0 && !s.failed
    ensures var s := Pass(o, program, Last, labels); s.labels == labels && s.changed == 0 && !s.failed
  {
    UnchangedIffSettled(o, program, labels);
  }

  /** A later pass over a settled table leaves it and brings the next phase. */
  lemma SettledPass(o: Oracle, program: seq<Line>, h: History, labels: Labels, i: nat)
    requires IsHistory(o, program, h) && 0 < i < |h.phases| && i < 4
    requires Settled(o, program, labels, |program|) && h.tables[i] == labels
    ensures h.counts[i] == 0 && h.tables[i + 1] == labels && !FailedIn(o, program, h, i)
    ensures Advances(h.phases, h.counts, i)
    ensures Stalls(h.phases, h.counts, i + 1) <= i + 1
    ensures h.phases[i] != 2 ==> GoesOn(o, program, h, i + 1)
    ensures i + 1 < |h.phases| ==> h.phases[i + 1] == h.phases[i] + 1
  {
    hide Settled, Pass, Stalls;
    SettledPasses(o, program, labels);
    assert PassIs(o, program, h, i);
    StallsAreFew(h.phases, h.counts, i + 1);
  }

  // ---------- Sources that need no second table ----------

  /** Two tables that agree on the labels of the first `k` lines. */
  ghost predicate AgreeBefore(program: seq<Line>, t: Labels, u: Labels, k: nat)
    requires k <= |program|
  {
    forall i :: 0 <= i < k && NameOf(program[i]).Some? ==>
      var name := NameOf(program[i]).value; name in t && name in u && t[name] == u[name]
  }

  /** The size or the value of a line depends on no label but its own and those of the lines before it. */
  ghost predicate NeedsNoMore(o: Oracle, program: seq<Line>, i: nat)
    requires i < |program|
  {
    match program[i]
    case Section(_) => true
    case Statement(_, text) =>
      forall t: Labels, u: Labels, here: Entry :: AgreeBefore(program, t, u, i + 1) ==>
        o.size(text, t, here) == o.size(text, u, here)
    case Equ(_, expr) =>
      forall t: Labels, u: Labels, here: Entry :: AgreeBefore(program, t, u, i) ==>
        o.value(expr, t, here) == o.value(expr, u, here)
  }

  /** A first pass without an error keeps what it has defined. */
  lemma {:induction false} DefinitionsStay(o: Oracle, program: seq<Line>, j: nat, k: nat, name: string)
    requires j <= k <= |program| && !After(o, program, First, map[], k).failed
    requires name in After(o, program, First, map[], j).labels
    ensures name in After(o, program, First, map[], k).labels
    ensures After(o, program, First, map[], k).labels[name] == After(o, program, First, map[], j).labels[name]
    decreases k
  {
    if j < k {
      ChangesGrow(o, program, First, map[], k - 1, k);
      DefinitionsStay(o, program, j, k - 1, name);
    }
  }

  lemma {:induction false} NamesAreDefined(o: Oracle, program: seq<Line>, k: nat)
    requires k <= |program| && !After(o, program, First, map[], k).failed
    ensures forall i :: 0 <= i < k && NameOf(program[i]).Some? ==>
      NameOf(program[i]).value in After(o, program, First, map[], k).labels
  {
    if k > 0 {
      ChangesGrow(o, program, First, map[], k - 1, k);
      NamesAreDefined(o, program, k - 1);
    }
  }

  /** The labels of the first `k` lines are in the final table what they were after these lines. */
  lemma AgreesWithFinal(o: Oracle, program: seq<Line>, k: nat)
    requires k <= |program| && !Pass(o, program, First, map[]).failed
    ensures AgreeBefore(program, After(o, program, First, map[], k).labels, Pass(o, program, First, map[]).labels, k)
  {
    ChangesGrow(o, program, First, map[], k, |program|);
    NamesAreDefined(o, program, k);
    forall i | 0 <= i < k && NameOf(program[i]).Some?
      ensures var name, final := NameOf(program[i]).value, Pass(o, program, First, map[]).labels;
        name in final && final[name] == After(o, program, First, map[], k).labels[name]
    {
      DefinitionsStay(o, program, k, |program|, NameOf(program[i]).value);
    }
  }

  /** The sizes of the first pass are those under its final table. */
  lemma {:induction false} FirstOffsets(o: Oracle, program: seq<Line>, k: nat)
    requires k <= |program| && !Pass(o, program, First, map[]).failed
    requires forall i :: 0 <= i < |program| ==> NeedsNoMore(o, program, i)
    ensures var s, final := After(o, program, First, map[], k), Pass(o, program, First, map[]).labels;
      && s.segment == SegmentAt(program, k)
      && forall seg :: OffsetIn(s.offsets, seg) == SizeBefore(o, program, final, k, seg)
  {
    if k > 0 {
      FirstOffsets(o, program, k - 1);
      AgreesWithFinal(o, program, k);
      assert NeedsNoMore(o, program, k - 1);
      var s, t := After(o, program, First, map[], k - 1), After(o, program, First, map[], k);
      var final := Pass(o, program, First, map[]).labels;
      forall seg: int
        ensures OffsetIn(t.offsets, seg) == SizeBefore(o, program, final, k, seg)
      {
        assert OffsetIn(s.offsets, seg) == SizeBefore(o, program, final, k - 1, seg);
      }
    }
  }

  /** If no size or EQU looks ahead, the first pass leaves a settled table; so there are four passes in all. */
  lemma FirstPassSettles(o: Oracle, program: seq<Line>)
    requires !Pass(o, program, First, map[]).failed
    requires forall i :: 0 <= i < |program| ==> NeedsNoMore(o, program, i)
    ensures Settled(o, program, Pass(o, program, First, map[]).labels, |program|)
  {
    var final := Pass(o, program, First, map[]).labels;
    forall i | 0 <= i < |program|
      ensures LineSettled(o, program, final, i)
    {
      if NameOf(program[i]).Some? {
        FirstPassSettlesLine(o, program, i);
      }
    }
  }

  lemma FirstPassSettlesLine(o: Oracle, program: seq<Line>, i: nat)
    requires i < |program| && NameOf(program[i]).Some? && !Pass(o, program, First, map[]).failed
    requires forall j :: 0 <= j < |program| ==> NeedsNoMore(o, program, j)
    ensures LineSettled(o, program, Pass(o, program, First, map[]).labels, i)
  {
    var final := Pass(o, program, First, map[]).labels;
    FirstOffsets(o, program, i);
    AgreesWithFinal(o, program, i);
    AgreesWithFinal(o, program, i + 1);
    ChangesGrow(o, program, First, map[], i + 1, |program|);
    var s := After(o, program, First, map[], i);
    assert Here(s) == Place(o, program, final, i);
    assert NeedsNoMore(o, program, i);
    var name := NameOf(program[i]).value;
    assert final[name] == After(o, program, First, map[], i + 1).labels[name];
  }

  // ---------- A source that never settles ----------

  /** `FOO EQU FOO + 1` */
  function Growing(): seq<Line> {
    [Equ("FOO", "FOO + 1")]
  }

  function GrowingOracle(): Oracle {
    Oracle((_, _, _) => 0,
           (_, labels: Labels, _) => if "FOO" in labels then Entry(0, labels["FOO"].offset + 1) else Entry(0, 0))
  }

  lemma GrowingPass(labels: Labels, x: int)
    ensures Pass(GrowingOracle(), Growing(), First, map[]) == Begin(map["FOO" := Entry(0, 0)])
    ensures var s := Pass(GrowingOracle(), Growing(), Middle, map["FOO" := Entry(0, x)]);
      s.changed == 1 && s.labels == map["FOO" := Entry(0, x + 1)] && !s.failed
  {
    var o, p := GrowingOracle(), Growing();
    var none: Labels, one: Labels := map[], map["FOO" := Entry(0, x)];
    assert After(o, p, First, none, 0) == Begin(none);
    assert After(o, p, First, none, 1) == Process(o, First, Begin(none), p[0]);
    assert After(o, p, Middle, one, 0) == Begin(one);
    assert After(o, p, Middle, one, 1) == Process(o, Middle, Begin(one), p[0]);
    assert one["FOO" := Entry(0, x + 1)] == map["FOO" := Entry(0, x + 1)];
  }

  lemma {:induction false} GrowingRun(h: History, n: nat)
    requires IsHistory(GrowingOracle(), Growing(), h) && n <= |h.phases|
    ensures forall i :: 0 <= i < n ==>
      h.phases[i] == 0 && h.counts[i] == (if i == 0 then 0 else 1) && !FailedIn(GrowingOracle(), Growing(), h, i)
    ensures n > 0 ==> h.tables[n] == map["FOO" := Entry(0, n - 1)]
    ensures Stalls(h.phases, h.counts, n) == if n <= 1 then n else n - 2
  {
    hide Pass;
    if n > 0 {
      GrowingRun(h, n - 1);
      assert PassIs(GrowingOracle(), Growing(), h, n - 1);
      GrowingPass(h.tables[n - 1], n - 2);
    }
  }

  /** The loop gives up on it after exactly a thousand passes. */
  lemma GrowingGivesUp(h: History)
    requires WholeRun(GrowingOracle(), Growing(), h)
    ensures |h.phases| == 1000 && GivesUp(GrowingOracle(), Growing(), h)
  {
    hide Pass, Stalls, PassIs;
    var n := |h.phases|;
    GrowingRun(h, n);
    if n > 1000 {
      assert GoesOn(GrowingOracle(), Growing(), h, 1000);
      GrowingRun(h, 1000);
    }
  }

  // ---------- What the loop's variables say ----------

  /** The fewest changes that a pass has reported so far, or the number that the loop starts with. */
  predicate Best(best: nat, counts: seq<nat>) {
    && 0 < best <= 0x4000_0001 && (best == 0x4000_0001 || best in counts)
    && forall j :: 0 <= j < |counts| && counts[j] > 0 ==> best <= counts[j]
  }

  ghost predicate Tracks(c: Control, phases: seq<nat>, counts: seq<nat>) {
    && |phases| == |counts| == c.passn - 1 && c.stallCount == Stalls(phases, counts, |phases|)
    && Best(c.previousChanged, counts)
  }

  lemma {:induction false} StallsOfPrefix(phases: seq<nat>, counts: seq<nat>, n: nat, phase: nat, count: nat)
    requires n <= |phases| == |counts|
    ensures Stalls(phases + [phase], counts + [count], n) == Stalls(phases, counts, n)
  {
    if n > 0 {
      StallsOfPrefix(phases, counts, n - 1, phase, count);
      assert (counts + [count])[n - 1] == counts[n - 1];
      assert forall j :: 0 <= j < n - 1 ==> (counts + [count])[j] == counts[j];
    }
  }

  lemma ImprovesBest(best: nat, counts: seq<nat>, count: nat)
    requires Best(best, counts)
    ensures Improves(counts + [count], |counts|) <==> 0 < count < best
    ensures 0 < count < best ==> Best(count, counts + [count])
    ensures !(0 < count < best) ==> Best(best, counts + [count])
  {
    var all := counts + [count];
    assert all[|counts|] == count && forall j :: 0 <= j < |counts| ==> all[j] == counts[j];
    if best in counts {
      var j :| 0 <= j < |counts| && counts[j] == best;
      assert all[j] == best;
    }
  }

  /** One pass in the loop's variables. */
  lemma JudgedTracks(c: Control, phases: seq<nat>, counts: seq<nat>, count: nat)
    requires Tracks(c, phases, counts) && c.pass0 <= 2 && c.passn >= 1
    ensures var d, ps, cs := Judged(c, count), phases + [c.pass0], counts + [count];
      && d.pass0 == c.pass0 + (if Advances(ps, cs, |phases|) then 1 else 0)
      && d.stallCount == Stalls(ps, cs, |ps|)
      && (c.pass0 < 2 ==> Tracks(d.(passn := d.passn + 1), ps, cs))
  {
    hide Best, Improves;
    StallsOfPrefix(phases, counts, |phases|, c.pass0, count);
    ImprovesBest(c.previousChanged, counts, count);
  }

  /** The phase that a history leads to. */
  function NextOf(h: History): nat
    requires |h.phases| == |h.counts|
  {
    if h.phases == [] then 0
    else
      var last := |h.phases| - 1;
      h.phases[last] + if Advances(h.phases, h.counts, last) then 1 else 0
  }

  function Grown(h: History, phase: nat, s: PassState): History {
    History(h.phases + [phase], h.counts + [s.changed], h.tables + [s.labels])
  }

  lemma AdvancesInPrefix(phases: seq<nat>, counts: seq<nat>, i: nat, phase: nat, count: nat)
    requires i < |phases| == |counts|
    ensures Advances(phases + [phase], counts + [count], i) == Advances(phases, counts, i)
  {
  }

  lemma PassInPrefix(o: Oracle, program: seq<Line>, h: History, phase: nat, s: PassState, i: nat)
    requires i < |h.phases| && |h.tables| == |h.phases| + 1 == |h.counts| + 1
    ensures var g := Grown(h, phase, s);
      && PassIs(o, program, g, i) == PassIs(o, program, h, i)
      && FailedIn(o, program, g, i) == FailedIn(o, program, h, i)
      && GoesOn(o, program, g, i) == GoesOn(o, program, h, i)
      && GoesOn(o, program, g, i + 1) == GoesOn(o, program, h, i + 1)
  {
    hide Pass, Stalls;
    var g := Grown(h, phase, s);
    assert g.tables[i] == h.tables[i] && g.tables[i + 1] == h.tables[i + 1];
    assert g.counts[i] == h.counts[i] && ModeOf(g.phases, i) == ModeOf(h.phases, i);
    StallsOfPrefix(h.phases, h.counts, i, phase, s.changed);
    StallsOfPrefix(h.phases, h.counts, i + 1, phase, s.changed);
    if i > 0 {
      assert g.tables[i - 1] == h.tables[i - 1] && ModeOf(g.phases, i - 1) == ModeOf(h.phases, i - 1);
    }
  }

  /** A history and one more pass. */
  lemma HistoryGrows(o: Oracle, program: seq<Line>, h: History, s: PassState)
    requires IsHistory(o, program, h)
    requires var phase := NextOf(h); s == Pass(o, program, ModeOf(h.phases + [phase], |h.phases|), h.tables[|h.phases|])
    ensures var g := Grown(h, NextOf(h), s);
      && IsHistory(o, program, g) && FailedIn(o, program, g, |h.phases|) == s.failed
      && forall n :: 0 <= n <= |h.phases| ==> GoesOn(o, program, g, n) == GoesOn(o, program, h, n)
  {
    hide Pass, Stalls, GoesOn, Advances;
    var phase := NextOf(h);
    var g, n := Grown(h, phase, s), |h.phases|;
    forall i | 0 <= i < n
      ensures PassIs(o, program, g, i) && Advances(g.phases, g.counts, i) == Advances(h.phases, h.counts, i)
    {
      PassInPrefix(o, program, h, phase, s, i);
      AdvancesInPrefix(h.phases, h.counts, i, phase, s.changed);
    }
    forall i | 0 <= i <= n
      ensures GoesOn(o, program, g, i) == GoesOn(o, program, h, i)
    {
      if i > 0 {
        PassInPrefix(o, program, h, phase, s, i - 1);
      } else {
        NothingYet(o, program, h, g);
      }
    }
    assert g.tables[n] == h.tables[n] && g.tables[n + 1] == s.labels && g.counts[n] == s.changed;
    assert PassIs(o, program, g, n);
    assert g.phases[0] == 0 && g.tables[0] == map[];
  }

  lemma NothingYet(o: Oracle, program: seq<Line>, h: History, g: History)
    requires |h.tables| == |h.phases| + 1 == |h.counts| + 1 && |g.tables| == |g.phases| + 1 == |g.counts| + 1
    ensures GoesOn(o, program, g, 0) && GoesOn(o, program, h, 0)
  {
  }

  /** A history, the loop's variables and one more pass: whether the loop goes on, and whether it gives up. */
  lemma RunGrows(o: Oracle, program: seq<Line>, h: History, c: Control, s: PassState)
    requires IsHistory(o, program, h) && forall n :: 0 <= n <= |h.phases| ==> GoesOn(o, program, h, n)
    requires Tracks(c, h.phases, h.counts) && c.pass0 == NextOf(h) <= 2
    requires s == Pass(o, program, ModeOf(h.phases + [c.pass0], |h.phases|), h.tables[|h.phases|])
    ensures var g, d := Grown(h, c.pass0, s), Judged(c, s.changed);
      && IsHistory(o, program, g) && FailedIn(o, program, g, |h.phases|) == s.failed && d.pass0 == NextOf(g)
      && (forall n :: 0 <= n <= |h.phases| ==> GoesOn(o, program, g, n))
      && c.passn <= 0x4000_0001 && d.stallCount <= 998
      && (GoesOn(o, program, g, |g.phases|) <==>
          !s.failed && d.stallCount <= 997 && c.passn < 0x4000_0001 && c.pass0 != 2)
      && (GivesUp(o, program, g) <==> !s.failed && (d.stallCount == 998 || c.passn == 0x4000_0001))
      && (c.pass0 < 2 ==> Tracks(d.(passn := d.passn + 1), g.phases, g.counts))
  {
    hide Pass, PassIs, Best, Improves;
    HistoryGrows(o, program, h, s);
    JudgedTracks(c, h.phases, h.counts, s.changed);
    assert GoesOn(o, program, h, |h.phases|);
  }

  /** What the loop knows between passes. */
  ghost predicate OnTrack(o: Oracle, program: seq<Line>, h: History, labels: Labels, c: Control) {
    && IsHistory(o, program, h) && labels == h.tables[|h.phases|] && c.pass0 == NextOf(h) <= 2
    && Tracks(c, h.phases, h.counts) && forall n :: 0 <= n <= |h.phases| ==> GoesOn(o, program, h, n)
  }

  /** What it leaves. */
  ghost predicate Finished(o: Oracle, program: seq<Line>, h: History, labels: Labels, failed: bool, phaseError: bool,
                           gaveUp: bool)
  {
    && WholeRun(o, program, h) && labels == h.tables[|h.phases|]
    && failed == FailedIn(o, program, h, |h.phases| - 1) && gaveUp == GivesUp(o, program, h)
    && phaseError == (!failed && h.phases[|h.phases| - 1] == 2 && h.counts[|h.phases| - 1] > 0)
  }

  /** After one more pass the loop goes on, or ends and leaves what it should. */
  lemma OneMorePass(o: Oracle, program: seq<Line>, h: History, labels: Labels, c: Control, s: PassState)
    requires OnTrack(o, program, h, labels, c)
    requires s == Pass(o, program, if c.pass0 == 2 then Last else if c.passn == 1 then First else Middle, labels)
    ensures var g, d := Grown(h, c.pass0, s), Judged(c, s.changed);
      var stalled := d.stallCount > 997 || c.passn >= 0x4000_0001;
      if s.failed || stalled || d.pass0 > 2 then
        Finished(o, program, g, s.labels, s.failed, c.pass0 == 2 && s.changed > 0 && !s.failed, !s.failed && stalled)
      else OnTrack(o, program, g, s.labels, d.(passn := d.passn + 1))
  {
    hide Pass, PassIs, Tracks, GoesOn, FailedIn, Stalls;
    assert Tracks(c, h.phases, h.counts) ==> c.passn == |h.phases| + 1 by { TracksCount(c, h.phases, h.counts); }
    RunGrows(o, program, h, c, s);
  }

  lemma TracksCount(c: Control, phases: seq<nat>, counts: seq<nat>)
    ensures Tracks(c, phases, counts) ==> c.passn == |phases| + 1
  {
  }

  /** The history before the first pass. */
  lemma NoPassYet(o: Oracle, program: seq<Line>)
    ensures OnTrack(o, program, History([], [], [map[]]), map[], Control(0, 1, 0, PASS_MAX)) && Phases(0, 0) == []
  {
  }

  class Assembler {
    const oracle: Oracle
    const program: seq<Line>
    var labels: Labels
    var changed: nat
    ghost var moved: nat
    var offsets: map<int, int>
    var segment: int
    var failed: bool
    var pass0: nat
    var passn: nat
    var stallCount: nat
    var previousChanged: nat

    ghost function Now(): PassState
      reads this
    {
      PassState(labels, changed, moved, offsets, segment, failed)
    }

    ghost function Loop(): Control
      reads this
    {
      Control(pass0, passn, stallCount, previousChanged)
    }

    constructor (oracle: Oracle, program: seq<Line>)
      ensures this.oracle == oracle && this.program == program && labels == map[] && pass0 == 0
    {
      this.oracle, this.program := oracle, program;
      labels, changed, moved, offsets, segment, failed := map[], 0, 0, map[], DEFAULT_SEGMENT, false;
      pass0, passn, stallCount, previousChanged := 0, 1, 0, PASS_MAX;
    }

    method SetLabelTo(mode: Mode, name: string, e: Entry)
      modifies this`labels, this`changed, this`moved, this`failed
      ensures Now() == SetLabel(mode, old(Now()), name, e)
    {
      if mode == First {
        if name in labels {
          failed := true;
        } else {
          labels := labels[name := e];
        }
      } else {
        if name !in labels || labels[name].offset != e.offset {
          changed := changed + 1;
        }
        moved := moved + if name !in labels || labels[name].segment != e.segment then 1 else 0;
        labels := labels[name := e];
      }
    }

    method ProcessLine(mode: Mode, l: Line)
      modifies this`labels, this`changed, this`moved, this`failed, this`offsets, this`segment
      ensures Now() == Process(oracle, mode, old(Now()), l)
    {
      var here := Entry(segment, OffsetIn(offsets, segment));
      match l
      case Section(seg) => segment := seg;
      case Statement(mark, text) =>
        if mark.Some? {
          SetLabelTo(mode, mark.value, here);
        }
        offsets := offsets[segment := here.offset + oracle.size(text, labels, here)];
      case Equ(name, expr) =>
        if mode != Last {
          SetLabelTo(mode, name, oracle.value(expr, labels, here));
        }
    }

    /** One pass over the source: every section starts again at offset 0. */
    method RunPass(mode: Mode)
      modifies this`labels, this`changed, this`moved, this`failed, this`offsets, this`segment
      ensures Now() == Pass(oracle, program, mode, old(labels))
    {
      ghost var start := labels;
      changed, moved, offsets, segment, failed := 0, 0, map[], DEFAULT_SEGMENT, false;
      for k := 0 to |program|
        invariant Now() == After(oracle, program, mode, start, k)
      {
        ProcessLine(mode, program[k]);
      }
    }

    /** What is known before pass `n` if segments are fixed: `zeros` passes were made in phase 0. */
    ghost predicate OnCourse(phases: seq<nat>, zeros: nat, n: nat)
      reads this
    {
      && pass0 <= 3 && phases == Phases(zeros, pass0)
      && (n == 1 ==> pass0 == 0 && zeros == 0 && labels == map[])
      && (n > 1 ==> SegmentsRight(oracle, program, labels, |program|))
      && (pass0 >= 1 ==> n > 1 && zeros >= 2 && Settled(oracle, program, labels, |program|))
      && (n > 1 && pass0 == 0 ==> zeros >= 1)
    }

    /** One pass and what the loop makes of it: the next phase, fewer changes than before, or a stall. */
    method OnePass(ghost phases: seq<nat>, ghost zeros: nat) returns (phaseError: bool, ghost step: Outcome)
      requires pass0 <= 2 && passn >= 1 && (passn == 1 ==> labels == map[] && pass0 == 0)
      requires SegmentsFixed(oracle, program) ==> OnCourse(phases, zeros, passn)
      modifies this
      ensures Loop() == Judged(old(Loop()), changed)
      ensures var mode := if old(pass0) == 2 then Last else if passn == 1 then First else Middle;
        Now() == Pass(oracle, program, mode, old(labels))
      ensures phaseError <==> old(pass0) == 2 && changed > 0 && !failed
      ensures passn == old(passn) && pass0 == old(pass0) + (if step == NextPhase then 1 else 0)
      ensures stallCount
        == match step case NextPhase => old(stallCount) case FewerChanges => 0 case Stall => old(stallCount) + 1
      ensures if step == FewerChanges then 1 <= previousChanged < old(previousChanged)
        && previousChanged <= NamesIn(program, |program|)
              else previousChanged == old(previousChanged)
      ensures SegmentsFixed(oracle, program) && !failed ==>
        !phaseError && OnCourse(phases + [old(pass0)], zeros + (if old(pass0) == 0 then 1 else 0), passn + 1)
    {
      hide Phases, Settled, SegmentsRight, SegmentsFixed, Pass, NamesIn;
      var mode := if pass0 == 2 then Last else if passn == 1 then First else Middle;
      ghost var before := labels;
      PhasesGrow(zeros);
      RunPass(mode);
      PassKeepsCourse(oracle, program, mode, before);
      phaseError := pass0 == 2 && changed > 0 && !failed;
      if (passn > 1 && changed == 0) || pass0 == 2 {
        pass0 := pass0 + 1;
        step := NextPhase;
      } else if 0 < changed < previousChanged {
        previousChanged, stallCount := changed, 0;
        step := FewerChanges;
      } else {
        stallCount := stallCount + 1;
        step := Stall;
      }
    }

    /**
     The pass loop. It makes exactly the passes of a whole run, and gives up when `GivesUp` says so. It always
     ends, within a number of passes set by the number of labels. If segments are fixed and it does not fail or
     give up, the phases were 0, ..., 0, 1, 2, there was no phase error and the label table is settled.
     */
    method AssembleFile() returns (ghost h: History, phaseError: bool, gaveUp: bool)
      requires labels == map[] && pass0 == 0
      modifies this
      ensures Finished(oracle, program, h, labels, failed, phaseError, gaveUp)
      ensures |h.phases| <= 999 * (NamesIn(program, |program|) + 1) + 3
      ensures gaveUp || failed || pass0 == 3
      ensures SegmentsFixed(oracle, program) && !failed && !gaveUp ==>
        && (exists zeros: nat :: zeros >= 2 && h.phases == Phases(zeros, 3))
        && !phaseError
        && Settled(oracle, program, labels, |program|)
    {
      hide Phases, Settled, SegmentsRight, SegmentsFixed, NamesIn, OnTrack, Finished, Pass;
      h, phaseError, gaveUp := History([], [], [map[]]), false, false;
      passn, stallCount, previousChanged, failed := 1, 0, PASS_MAX, false;
      ghost var names := NamesIn(program, |program|);
      ghost var resets, stalls, zeros := 0, 0, 0;
      NoPassYet(oracle, program);
      while pass0 <= 2
        invariant !gaveUp && !failed && 1 <= passn && pass0 <= 3
        invariant |h.phases| == passn - 1 == pass0 + resets + stalls
        invariant stalls <= 998 * resets + stallCount && stallCount <= STALL_LIMIT
        invariant resets > 0 ==> 1 <= previousChanged && previousChanged + resets <= names + 1
        invariant SegmentsFixed(oracle, program) ==> OnCourse(h.phases, zeros, passn) && !phaseError
        invariant passn == 1 ==> labels == map[] && pass0 == 0
        invariant if pass0 <= 2 then OnTrack(oracle, program, h, labels, Loop()) && !phaseError
                  else Finished(oracle, program, h, labels, failed, phaseError, gaveUp)
        decreases 999 * (names + 1) + 3 - |h.phases|
      {
        ghost var step;
        var error;
        ghost var control, before := Loop(), labels;
        error, step := OnePass(h.phases, zeros);
        phaseError := phaseError || error;
        OneMorePass(oracle, program, h, before, control, Now());
        h := Grown(h, control.pass0, Now());
        zeros := zeros + if control.pass0 == 0 then 1 else 0;
        resets := resets + if step == FewerChanges then 1 else 0;
        stalls := stalls + if step == Stall then 1 else 0;
        if failed {
          break;
        }
        if stallCount > STALL_LIMIT || passn >= PASS_MAX {
          gaveUp := true;
          break;
        }
        passn := passn + 1;
      }
    }
  }

  /** What one pass does to a table, as the loop needs it. */
  lemma PassKeepsCourse(o: Oracle, program: seq<Line>, mode: Mode, labels: Labels)
    ensures var s := Pass(o, program, mode, labels);
      s.changed <= NamesIn(program, |program|) && (mode == First ==> s.changed == 0)
    ensures SegmentsFixed(o, program) && mode == First && labels == map[] && !Pass(o, program, mode, labels).failed ==>
      SegmentsRight(o, program, Pass(o, program, mode, labels).labels, |program|)
    ensures mode != First && SegmentsRight(o, program, labels, |program|) ==>
      SegmentsRight(o, program, Pass(o, program, mode, labels).labels, |program|)
    ensures mode == Middle && SegmentsRight(o, program, labels, |program|) ==>
      Pass(o, program, mode, labels).changed == 0 ==> Settled(o, program, labels, |program|)
    ensures mode != First && Settled(o, program, labels, |program|) ==>
      Pass(o, program, mode, labels).labels == labels && Pass(o, program, mode, labels).changed == 0
  {
    ChangesBound(o, program, mode, labels, |program|);
    UnchangedIffSettled(o, program, labels);
    if mode == First {
      if SegmentsFixed(o, program) && labels == map[] && !Pass(o, program, mode, labels).failed {
        var segs :| FixedBy(o, program, segs);
        FirstPassSegments(o, program, segs, |program|);
      }
    } else if SegmentsRight(o, program, labels, |program|) {
      var segs :| FixedBy(o, program, segs) && Agrees(program, labels, segs, |program|);
      LaterPassSegments(o, program, mode, labels, segs, |program|);
      NoOffsetChangeMeansSettled(o, program, labels);
    }
  }
}
