/**
 The preprocessor's line machine (asm/aasm-prep.cpp, `pp_getline` and `do_directive`):
 %if/%elif/%else/%endif, %rep/%endrep and %exitrep, with every other directive and every
 expression left to an oracle over an abstract environment.

 The source streams lines. It keeps a stack of conditional states, a list of pending
 expansion lines with end-of-repeat markers that push their own body again, and the block
 being recorded. The specification is a recursive semantics over the program's tree.
 */
module LineMachine {
  import opened Common

  datatype Line =
    | Plain(text: string)
    | Other(text: string)       // any directive that is not about conditions or repeats
    | If(expr: string)
    | Elif(expr: string)
    | Else
    | Endif
    | Rep(expr: string)
    | EndRep
    | ExitRep

  /**
   The parts of the preprocessor that the machine only calls: `test` is a condition's value
   (negative for an error), `count` a repeat count (-1 when it is missing), `run` the effect
   of any other directive, `write` the text emitted for a plain line.
   */
  datatype Oracle<!E> = Oracle(
    test: (E, string) -> int,
    count: (E, string) -> int,
    run: (E, string) -> E,
    write: (E, string) -> string)

  datatype CondState = IfTrue | IfFalse | ElseTrue | ElseFalse | Done | Never

  predicate Emitting(c: CondState) {
    c == IfTrue || c == ElseTrue
  }

  /**
   A %rep block: `left` is its `in_progress` counter, `body` its lines in the order the source
   keeps them (last line first), `below` the block that was active when it started and `outer`
   the block that was being recorded then.
   */
  datatype Block = Block(left: int, body: seq<Line>, below: Option<nat>, outer: Option<nat>)

  /** A pending expansion line, or the marker that finishes block `id`. */
  datatype Item = Text(line: Line) | Marker(id: nat)

  datatype State<E> = State(
    input: seq<Line>,          // lines of the file not yet read
    expansion: seq<Item>,      // istk->expansion
    conds: seq<CondState>,     // istk->conds, innermost first
    active: Option<nat>,       // istk->mstk
    defining: Option<nat>,     // the block being recorded
    nested: nat,               // nested_rep_count
    blocks: map<nat, Block>,   // the blocks allocated
    fatal: bool,
    env: E,
    out: seq<string>)          // the lines emitted so far

  // ---------- The machine ----------

  function Reversed<T>(s: seq<T>): (r: seq<T>)
    ensures |r| == |s|
  {
    if s == [] then [] else Reversed(s[1..]) + [s[0]]
  }

  function Texts(ls: seq<Line>): (r: seq<Item>)
    ensures |r| == |ls|
    ensures forall i :: 0 <= i < |ls| ==> r[i] == Text(ls[i])
  {
    seq(|ls|, i requires 0 <= i < |ls| => Text(ls[i]))
  }

  /** An identity for a new block. */
  function FreshId(blocks: map<nat, Block>, from: nat := 0): (id: nat)
    ensures id !in blocks
    decreases blocks.Keys - Smaller(from)
  {
    if from in blocks then FreshId(blocks, from + 1) else from
  }

  function Smaller(n: nat): (s: set<nat>)
    ensures forall i: nat :: i in s <==> i < n
  {
    if n == 0 then {} else Smaller(n - 1) + {n - 1}
  }

  predicate IsCondition(l: Line) {
    l.If? || l.Elif? || l.Else? || l.Endif?
  }

  /** In a branch of a condition that does not emit. */
  predicate Dead<E>(s: State<E>) {
    s.conds != [] && !Emitting(s.conds[0])
  }

  /** In a repeat block whose counter has been cleared. */
  predicate Stopped<E>(s: State<E>) {
    s.active.Some? && s.active.value in s.blocks && s.blocks[s.active.value].left == 0
  }

  function Tested(j: int): CondState {
    if j < 0 then Never else if j > 0 then IfTrue else IfFalse
  }

  /** The first repeat marker of an expansion list. */
  function FirstMarker(items: seq<Item>): (r: Option<nat>)
    ensures r.Some? ==> Marker(r.value) in items
  {
    if items == [] then None
    else if items[0].Marker? then Some(items[0].id)
    else FirstMarker(items[1..])
  }

  /** %exitrep: the innermost repeat in progress is on its last turn. */
  function Exit<E>(s: State<E>): State<E> {
    var m := FirstMarker(s.expansion);
    if m.Some? && m.value in s.blocks
    then s.(blocks := s.blocks[m.value := s.blocks[m.value].(left := 1)])
    else s
  }

  /** A line that is not taken as a directive. */
  function Pass<E>(o: Oracle<E>, s: State<E>, l: Line): State<E> {
    if s.defining.Some? && s.defining.value in s.blocks then
      var b := s.blocks[s.defining.value];
      s.(blocks := s.blocks[s.defining.value := b.(body := [l] + b.body)])
    else if Dead(s) || Stopped(s) || !l.Plain? then s
    else s.(out := s.out + [o.write(s.env, l.text)])
  }

  function OnElif<E>(o: Oracle<E>, s: State<E>, expr: string): CondState
    requires s.conds != []
  {
    match s.conds[0]
    case IfTrue => Done
    case Done => Done
    case Never => Never
    case ElseTrue => Never
    case ElseFalse => Never
    case IfFalse => Tested(o.test(s.env, expr))
  }

  function OnElse(c: CondState): CondState {
    match c
    case IfTrue => ElseFalse
    case Done => ElseFalse
    case Never => Never
    case IfFalse => ElseTrue
    case ElseTrue => Never
    case ElseFalse => Never
  }

  /** %rep: a new block is to be recorded, to be run once less than its counter. */
  function Starting<E>(o: Oracle<E>, s: State<E>, c: string): State<E> {
    var id := FreshId(s.blocks);
    s.(blocks := s.blocks[id := Block(o.count(s.env, c) + 1, [], s.active, s.defining)], defining := Some(id))
  }

  /** The switch of `do_directive`. */
  function Directive<E>(o: Oracle<E>, s: State<E>, l: Line): State<E> {
    match l
    case Plain(_) => Pass(o, s, l)
    case Other(t) => s.(env := o.run(s.env, t))
    case If(e) => s.(conds := [if Dead(s) then Never else Tested(o.test(s.env, e))] + s.conds)
    case Elif(e) => if s.conds == [] then s.(fatal := true) else s.(conds := [OnElif(o, s, e)] + s.conds[1..])
    case Else => if s.conds == [] then s.(fatal := true) else s.(conds := [OnElse(s.conds[0])] + s.conds[1..])
    case Endif => if s.conds == [] then s.(fatal := true) else s.(conds := s.conds[1..])
    case Rep(e) => Starting(o, s, e)
    case EndRep =>
      if s.defining.None? || s.defining.value !in s.blocks then s
      else
        var id := s.defining.value;
        s.(expansion := [Marker(id)] + s.expansion, active := Some(id), defining := s.blocks[id].outer)
    case ExitRep => Exit(s)
  }

  /** `do_directive`, then what `pp_getline` does with a line that was not a directive. */
  function Process<E>(o: Oracle<E>, s: State<E>, l: Line): State<E> {
    if l.Plain? then Pass(o, s, l)
    else if (Dead(s) || Stopped(s)) && !IsCondition(l) then Pass(o, s, l)
    else if s.defining.Some? && !l.Rep? && !l.EndRep? then Pass(o, s, l)
    else if s.defining.Some? && l.Rep? then Pass(o, s.(nested := s.nested + 1), l)
    else if s.defining.Some? && s.nested > 0 then Pass(o, s.(nested := s.nested - 1), l)
    else Directive(o, s, l)
  }

  /** The marker at the head of the expansion list: run the block again or drop it. */
  function AtMarker<E>(s: State<E>, id: nat): State<E>
    requires s.expansion != []
  {
    if id in s.blocks && s.blocks[id].left > 1 then
      var b := s.blocks[id];
      s.(blocks := s.blocks[id := b.(left := b.left - 1)],
         expansion := Texts(Reversed(b.body)) + s.expansion)
    else if s.active.Some? && s.active.value in s.blocks then
      s.(expansion := s.expansion[1..],
         active := s.blocks[s.active.value].below,
         blocks := s.blocks - {s.active.value})
    else s.(fatal := true)
  }

  predicate AtEnd<E>(s: State<E>) {
    s.fatal || (s.expansion == [] && s.input == [])
  }

  /** One turn of `pp_getline`: a marker is dealt with, or a line is fetched and processed. */
  function Step<E>(o: Oracle<E>, s: State<E>): State<E> {
    if AtEnd(s) then s
    else if s.expansion != [] then
      match s.expansion[0]
      case Marker(id) => AtMarker(s, id)
      case Text(l) => Process(o, s.(expansion := s.expansion[1..]), l)
    else Process(o, s.(input := s.input[1..]), s.input[0])
  }

  function Run<E>(o: Oracle<E>, n: nat, s: State<E>): State<E> {
    if n == 0 then s else Run(o, n - 1, Step(o, s))
  }

  ghost predicate RunsTo<E>(o: Oracle<E>, s: State<E>, t: State<E>) {
    exists n: nat :: Run(o, n, s) == t
  }

  lemma {:induction false} RunAdds<E>(o: Oracle<E>, m: nat, n: nat, s: State<E>)
    ensures Run(o, m + n, s) == Run(o, n, Run(o, m, s))
    decreases m
  {
    hide Step;
    if m > 0 {
      RunAdds(o, m - 1, n, Step(o, s));
      assert m + n - 1 == m - 1 + n;
    }
  }

  lemma RunsToTrans<E>(o: Oracle<E>, s: State<E>, t: State<E>, u: State<E>)
    requires RunsTo(o, s, t) && RunsTo(o, t, u)
    ensures RunsTo(o, s, u)
  {
    var m: nat :| Run(o, m, s) == t;
    var n: nat :| Run(o, n, t) == u;
    RunAdds(o, m, n, s);
  }

  lemma RunsToOne<E>(o: Oracle<E>, s: State<E>)
    ensures RunsTo(o, s, Step(o, s))
  {
    assert Run(o, 1, s) == Step(o, s);
  }

  lemma RunsToSelf<E>(o: Oracle<E>, s: State<E>)
    ensures RunsTo(o, s, s)
  {
    assert Run(o, 0, s) == s;
  }

  // ---------- Programs as trees ----------

  datatype Node =
    | PlainNode(text: string)
    | OtherNode(text: string)
    | ExitNode
    | CondNode(test: string, body: seq<Node>, arms: Arms)
    | RepNode(count: string, body: seq<Node>)

  /** What may follow the first branch of a condition: %elif and %else branches in any order. */
  datatype Arms = NoArms | ElifArm(test: string, body: seq<Node>, rest: Arms) | ElseArm(body: seq<Node>, rest: Arms)

  function LinesOf(b: seq<Node>): seq<Line> {
    if b == [] then [] else NodeLines(b[0]) + LinesOf(b[1..])
  }

  function NodeLines(n: Node): seq<Line> {
    match n
    case PlainNode(t) => [Plain(t)]
    case OtherNode(t) => [Other(t)]
    case ExitNode => [ExitRep]
    case CondNode(t, b, arms) => [If(t)] + (LinesOf(b) + ArmLines(arms))
    case RepNode(c, b) => [Rep(c)] + (LinesOf(b) + [EndRep])
  }

  function ArmLines(a: Arms): seq<Line> {
    match a
    case NoArms => [Endif]
    case ElifArm(t, b, rest) => [Elif(t)] + (LinesOf(b) + ArmLines(rest))
    case ElseArm(b, rest) => [Else] + (LinesOf(b) + ArmLines(rest))
  }

  // ---------- The specification ----------

  /** What running a block yields: the environment, the lines emitted, and whether it hit %exitrep. */
  datatype Effect<E> = Effect(env: E, out: seq<string>, exited: bool)

  function Then<E>(a: Effect<E>, b: Effect<E>): Effect<E> {
    Effect(b.env, a.out + b.out, a.exited || b.exited)
  }

  function Meaning<E>(o: Oracle<E>, b: seq<Node>, env: E): Effect<E>
    decreases b, 0
  {
    if b == [] then Effect(env, [], false)
    else
      var first := NodeMeaning(o, b[0], env);
      Then(first, Meaning(o, b[1..], first.env))
  }

  function NodeMeaning<E>(o: Oracle<E>, n: Node, env: E): Effect<E>
    decreases n, 0
  {
    match n
    case PlainNode(t) => Effect(env, [o.write(env, t)], false)
    case OtherNode(t) => Effect(o.run(env, t), [], false)
    case ExitNode => Effect(env, [], true)
    case CondNode(t, b, arms) =>
      var j := o.test(env, t);
      if j < 0 then Effect(env, [], false)
      else if j > 0 then Meaning(o, b, env)
      else ArmsMeaning(o, arms, env)
    case RepNode(c, b) => Repeated(o, b, o.count(env, c), env).(exited := false)
  }

  /** The branch chosen when no earlier test held: the first %elif that holds or the first %else. */
  function ArmsMeaning<E>(o: Oracle<E>, a: Arms, env: E): Effect<E>
    decreases a, 0
  {
    match a
    case NoArms => Effect(env, [], false)
    case ElifArm(t, b, rest) =>
      var j := o.test(env, t);
      if j < 0 then Effect(env, [], false)
      else if j > 0 then Meaning(o, b, env)
      else ArmsMeaning(o, rest, env)
    case ElseArm(b, _) => Meaning(o, b, env)
  }

  /** The body `times` times, or up to and including the turn in which it hits %exitrep. */
  function Repeated<E>(o: Oracle<E>, b: seq<Node>, times: int, env: E): Effect<E>
    decreases b, 1, times
  {
    if times <= 0 then Effect(env, [], false)
    else
      var turn := Meaning(o, b, env);
      if turn.exited then turn
      else Then(turn, Repeated(o, b, times - 1, turn.env))
  }

  // ---------- Feeding lines to the machine ----------

  /** State `s` with lines `ls` still to come first, from the file or from an expansion. */
  function Fed<E>(s: State<E>, ls: seq<Line>, fromFile: bool): State<E> {
    if fromFile then s.(input := ls + s.input) else s.(expansion := Texts(ls) + s.expansion)
  }

  ghost predicate Feedable<E>(s: State<E>, fromFile: bool) {
    !s.fatal && (fromFile ==> s.expansion == [])
  }

  lemma FedNothing<E>(s: State<E>, f: bool)
    ensures Fed(s, [], f) == s
  {
    assert [] + s.input == s.input;
    assert Texts([]) + s.expansion == s.expansion;
  }

  lemma FedTwice<E>(s: State<E>, a: seq<Line>, b: seq<Line>, f: bool)
    ensures Fed(Fed(s, b, f), a, f) == Fed(s, a + b, f)
  {
    if f {
      assert a + (b + s.input) == (a + b) + s.input;
    } else {
      assert Texts(a) + (Texts(b) + s.expansion) == Texts(a + b) + s.expansion;
    }
  }

  lemma FirstLine<E>(o: Oracle<E>, s: State<E>, l: Line, ls: seq<Line>, f: bool)
    requires Feedable(s, f)
    ensures RunsTo(o, Fed(s, [l] + ls, f), Process(o, Fed(s, ls, f), l))
  {
    var all := Fed(s, [l] + ls, f);
    if f {
      assert all.input[0] == l && all.input[1..] == ls + s.input;
    } else {
      assert all.expansion[0] == Text(l);
      assert all.expansion[1..] == Texts(ls) + s.expansion;
    }
    RunsToOne(o, all);
  }

  lemma OnlyLine<E>(o: Oracle<E>, s: State<E>, l: Line, f: bool)
    requires Feedable(s, f)
    ensures RunsTo(o, Fed(s, [l], f), Process(o, s, l))
  {
    FedNothing(s, f);
    FirstLine(o, s, l, [], f);
    assert [l] + [] == [l];
  }

  lemma {:induction false} FirstMarkerTexts(ls: seq<Line>, items: seq<Item>)
    ensures FirstMarker(Texts(ls) + items) == FirstMarker(items)
  {
    if ls == [] {
      assert Texts(ls) + items == items;
    } else {
      FirstMarkerTexts(ls[1..], items);
      assert (Texts(ls) + items)[1..] == Texts(ls[1..]) + items;
    }
  }

  lemma FirstMarkerFed<E>(s: State<E>, ls: seq<Line>, f: bool)
    ensures FirstMarker(Fed(s, ls, f).expansion) == FirstMarker(s.expansion)
  {
    if f {
      assert Fed(s, ls, f).expansion == s.expansion;
    } else {
      FirstMarkerTexts(ls, s.expansion);
    }
  }

  // ---------- Lines under a dead branch ----------

  lemma {:induction false} DeadRuns<E>(o: Oracle<E>, b: seq<Node>, s: State<E>, f: bool)
    requires Feedable(s, f) && Dead(s) && s.defining.None?
    ensures RunsTo(o, Fed(s, LinesOf(b), f), s)
    decreases b, 0
  {
    if b == [] {
      FedNothing(s, f);
      RunsToSelf(o, s);
    } else {
      var t := Fed(s, LinesOf(b[1..]), f);
      DeadNode(o, b[0], t, f);
      FedTwice(s, NodeLines(b[0]), LinesOf(b[1..]), f);
      DeadRuns(o, b[1..], s, f);
      RunsToTrans(o, Fed(s, LinesOf(b), f), t, s);
    }
  }

  lemma {:induction false} DeadNode<E>(o: Oracle<E>, n: Node, s: State<E>, f: bool)
    requires Feedable(s, f) && Dead(s) && s.defining.None?
    ensures RunsTo(o, Fed(s, NodeLines(n), f), s)
    decreases n, 1
  {
    match n
    case PlainNode(t) => OnlyLine(o, s, Plain(t), f);
    case OtherNode(t) => OnlyLine(o, s, Other(t), f);
    case ExitNode => OnlyLine(o, s, ExitRep, f);
    case CondNode(t, b, arms) => DeadCond(o, t, b, arms, s, f);
    case RepNode(c, b) => DeadRep(o, c, b, s, f);
  }

  lemma {:induction false} DeadCond<E>(o: Oracle<E>, t: string, b: seq<Node>, arms: Arms, s: State<E>, f: bool)
    requires Feedable(s, f) && Dead(s) && s.defining.None?
    ensures RunsTo(o, Fed(s, NodeLines(CondNode(t, b, arms)), f), s)
    decreases CondNode(t, b, arms), 0
  {
    var inner := s.(conds := [Never] + s.conds);
    var ls := LinesOf(b) + ArmLines(arms);
    FirstLine(o, s, If(t), ls, f);
    FedTwice(inner, LinesOf(b), ArmLines(arms), f);
    DeadRuns(o, b, Fed(inner, ArmLines(arms), f), f);
    ClosedArms(o, arms, inner, f);
    assert inner.(conds := inner.conds[1..]) == s;
    RunsToTrans(o, Fed(inner, ls, f), Fed(inner, ArmLines(arms), f), s);
    RunsToTrans(o, Fed(s, [If(t)] + ls, f), Fed(inner, ls, f), s);
  }

  lemma {:induction false} DeadRep<E>(o: Oracle<E>, c: string, b: seq<Node>, s: State<E>, f: bool)
    requires Feedable(s, f) && Dead(s) && s.defining.None?
    ensures RunsTo(o, Fed(s, NodeLines(RepNode(c, b)), f), s)
    decreases RepNode(c, b), 0
  {
    var ls := LinesOf(b) + [EndRep];
    FirstLine(o, s, Rep(c), ls, f);
    FedTwice(s, LinesOf(b), [EndRep], f);
    DeadRuns(o, b, Fed(s, [EndRep], f), f);
    OnlyLine(o, s, EndRep, f);
    RunsToTrans(o, Fed(s, ls, f), Fed(s, [EndRep], f), s);
    RunsToTrans(o, Fed(s, [Rep(c)] + ls, f), Fed(s, ls, f), s);
  }

  /** Once a branch has been taken, or none may be, the remaining branches are skipped. */
  lemma {:induction false} ClosedArms<E>(o: Oracle<E>, a: Arms, s: State<E>, f: bool)
    requires Feedable(s, f) && s.defining.None? && s.conds != [] && s.conds[0] != IfFalse
    ensures RunsTo(o, Fed(s, ArmLines(a), f), s.(conds := s.conds[1..]))
    decreases a, 1
  {
    match a
    case NoArms =>
      OnlyLine(o, s, Endif, f);
    case ElifArm(t, b, rest) =>
      var inner := s.(conds := [OnElif(o, s, t)] + s.conds[1..]);
      FirstLine(o, s, Elif(t), LinesOf(b) + ArmLines(rest), f);
      SkippedArm(o, a, s, inner, f);
      RunsToTrans(o, Fed(s, ArmLines(a), f), Fed(inner, LinesOf(b) + ArmLines(rest), f), s.(conds := s.conds[1..]));
    case ElseArm(b, rest) =>
      var inner := s.(conds := [OnElse(s.conds[0])] + s.conds[1..]);
      FirstLine(o, s, Else, LinesOf(b) + ArmLines(rest), f);
      SkippedArm(o, a, s, inner, f);
      RunsToTrans(o, Fed(s, ArmLines(a), f), Fed(inner, LinesOf(b) + ArmLines(rest), f), s.(conds := s.conds[1..]));
  }

  lemma {:induction false} SkippedArm<E>(o: Oracle<E>, a: Arms, s: State<E>, inner: State<E>, f: bool)
    requires !a.NoArms? && Feedable(s, f) && s.defining.None? && s.conds != []
    requires inner.conds != [] && inner == s.(conds := [inner.conds[0]] + s.conds[1..])
    requires !Emitting(inner.conds[0]) && inner.conds[0] != IfFalse
    ensures RunsTo(o, Fed(inner, LinesOf(a.body) + ArmLines(a.rest), f), s.(conds := s.conds[1..]))
    decreases a, 0
  {
    FedTwice(inner, LinesOf(a.body), ArmLines(a.rest), f);
    DeadRuns(o, a.body, Fed(inner, ArmLines(a.rest), f), f);
    ClosedArms(o, a.rest, inner, f);
    RunsToTrans(o, Fed(inner, LinesOf(a.body) + ArmLines(a.rest), f), Fed(inner, ArmLines(a.rest), f),
      s.(conds := s.conds[1..]));
  }

  // ---------- Lines recorded into a block ----------

  ghost predicate Recording<E>(s: State<E>) {
    && s.defining.Some? && s.defining.value in s.blocks
    && !Dead(s) && !Stopped(s)
  }

  /** State `s` with lines `ls` added to the block being recorded. */
  function Recorded<E>(s: State<E>, ls: seq<Line>): State<E>
    requires s.defining.Some? && s.defining.value in s.blocks
  {
    var b := s.blocks[s.defining.value];
    s.(blocks := s.blocks[s.defining.value := b.(body := Reversed(ls) + b.body)])
  }

  lemma {:induction false} ReversedConcat<T>(a: seq<T>, b: seq<T>)
    ensures Reversed(a + b) == Reversed(b) + Reversed(a)
  {
    if a == [] {
      assert a + b == b;
    } else {
      ReversedConcat(a[1..], b);
      assert (a + b)[1..] == a[1..] + b;
    }
  }

  lemma {:induction false} ReversedTwice<T>(a: seq<T>)
    ensures Reversed(Reversed(a)) == a
  {
    if a != [] {
      ReversedTwice(a[1..]);
      ReversedConcat(Reversed(a[1..]), [a[0]]);
      assert Reversed([a[0]]) == [a[0]];
    }
  }

  lemma RecordedTwice<E>(s: State<E>, a: seq<Line>, b: seq<Line>)
    requires Recording(s)
    ensures Recorded(Recorded(s, a), b) == Recorded(s, a + b)
  {
    ReversedConcat(a, b);
    var id := s.defining.value;
    var body := s.blocks[id].body;
    assert Reversed(b) + (Reversed(a) + body) == Reversed(a + b) + body;
    assert Recorded(Recorded(s, a), b).blocks == Recorded(s, a + b).blocks;
  }

  lemma RecordedFed<E>(s: State<E>, a: seq<Line>, ls: seq<Line>, f: bool)
    requires Recording(s)
    ensures Recorded(Fed(s, ls, f), a) == Fed(Recorded(s, a), ls, f)
    ensures Recording(Recorded(s, a)) && Recording(Fed(s, ls, f))
  {
  }

  /** Recording `a` and then `b` from one run of lines. */
  lemma RecordThen<E>(o: Oracle<E>, s: State<E>, a: seq<Line>, b: seq<Line>, f: bool)
    requires Recording(s) && Feedable(s, f)
    requires RunsTo(o, Fed(Fed(s, b, f), a, f), Fed(Recorded(s, a), b, f))
    requires RunsTo(o, Fed(Recorded(s, a), b, f), Recorded(Recorded(s, a), b))
    ensures RunsTo(o, Fed(s, a + b, f), Recorded(s, a + b))
  {
    FedTwice(s, a, b, f);
    RecordedTwice(s, a, b);
    RunsToTrans(o, Fed(s, a + b, f), Fed(Recorded(s, a), b, f), Recorded(s, a + b));
  }

  lemma RecordLine<E>(o: Oracle<E>, s: State<E>, l: Line, ls: seq<Line>, f: bool)
    requires Recording(s) && Feedable(s, f) && !l.Rep? && !l.EndRep?
    ensures RunsTo(o, Fed(Fed(s, ls, f), [l], f), Fed(Recorded(s, [l]), ls, f))
  {
    assert Reversed([l]) == [l];
    FedTwice(s, [l], ls, f);
    FirstLine(o, s, l, ls, f);
  }

  lemma {:induction false} RecordRuns<E>(o: Oracle<E>, b: seq<Node>, s: State<E>, f: bool)
    requires Recording(s) && Feedable(s, f)
    ensures RunsTo(o, Fed(s, LinesOf(b), f), Recorded(s, LinesOf(b)))
    decreases b, 0
  {
    if b == [] {
      FedNothing(s, f);
      RunsToSelf(o, s);
      var b := s.blocks[s.defining.value];
      assert Reversed<Line>([]) + b.body == b.body;
      assert Recorded(s, []).blocks == s.blocks;
    } else {
      var rest := LinesOf(b[1..]);
      RecordedFed(s, NodeLines(b[0]), rest, f);
      RecordNode(o, b[0], Fed(s, rest, f), f);
      RecordRuns(o, b[1..], Recorded(s, NodeLines(b[0])), f);
      RecordThen(o, s, NodeLines(b[0]), rest, f);
    }
  }

  lemma {:induction false} RecordNode<E>(o: Oracle<E>, n: Node, s: State<E>, f: bool)
    requires Recording(s) && Feedable(s, f)
    ensures RunsTo(o, Fed(s, NodeLines(n), f), Recorded(s, NodeLines(n)))
    decreases n, 1
  {
    match n
    case PlainNode(t) => RecordOnly(o, s, Plain(t), f);
    case OtherNode(t) => RecordOnly(o, s, Other(t), f);
    case ExitNode => RecordOnly(o, s, ExitRep, f);
    case CondNode(t, b, arms) =>
      RecordRuns(o, b, Fed(Recorded(s, [If(t)]), ArmLines(arms), f), f);
      RecordArms(o, arms, Recorded(Recorded(s, [If(t)]), LinesOf(b)), f);
      RecordBranch(o, If(t), b, arms, s, f);
    case RepNode(c, b) => RecordRep(o, c, b, s, f);
  }

  lemma RecordOnly<E>(o: Oracle<E>, s: State<E>, l: Line, f: bool)
    requires Recording(s) && Feedable(s, f) && !l.Rep? && !l.EndRep?
    ensures RunsTo(o, Fed(s, [l], f), Recorded(s, [l]))
  {
    assert Reversed([l]) == [l];
    OnlyLine(o, s, l, f);
  }

  lemma {:induction false} RecordArms<E>(o: Oracle<E>, a: Arms, s: State<E>, f: bool)
    requires Recording(s) && Feedable(s, f)
    ensures RunsTo(o, Fed(s, ArmLines(a), f), Recorded(s, ArmLines(a)))
    decreases a, 1
  {
    match a
    case NoArms => RecordOnly(o, s, Endif, f);
    case ElifArm(t, b, rest) =>
      RecordRuns(o, b, Fed(Recorded(s, [Elif(t)]), ArmLines(rest), f), f);
      RecordArms(o, rest, Recorded(Recorded(s, [Elif(t)]), LinesOf(b)), f);
      RecordBranch(o, Elif(t), b, rest, s, f);
    case ElseArm(b, rest) =>
      RecordRuns(o, b, Fed(Recorded(s, [Else]), ArmLines(rest), f), f);
      RecordArms(o, rest, Recorded(Recorded(s, [Else]), LinesOf(b)), f);
      RecordBranch(o, Else, b, rest, s, f);
  }

  /** A branch: its opening line, its body and the branches after it, once body and branches record. */
  lemma RecordBranch<E>(o: Oracle<E>, l: Line, b: seq<Node>, arms: Arms, s: State<E>, f: bool)
    requires Recording(s) && Feedable(s, f) && IsCondition(l)
    requires var t := Recorded(s, [l]);
      && RunsTo(o, Fed(Fed(t, ArmLines(arms), f), LinesOf(b), f), Recorded(Fed(t, ArmLines(arms), f), LinesOf(b)))
      && RunsTo(o, Fed(Recorded(t, LinesOf(b)), ArmLines(arms), f), Recorded(Recorded(t, LinesOf(b)), ArmLines(arms)))
    ensures RunsTo(o, Fed(s, [l] + (LinesOf(b) + ArmLines(arms)), f), Recorded(s, [l] + (LinesOf(b) + ArmLines(arms))))
  {
    var rest := LinesOf(b) + ArmLines(arms);
    RecordLine(o, s, l, rest, f);
    var t := Recorded(s, [l]);
    RecordedFed(s, [l], rest, f);
    RecordedFed(t, LinesOf(b), ArmLines(arms), f);
    RecordThen(o, t, LinesOf(b), ArmLines(arms), f);
    RecordThen(o, s, [l], rest, f);
  }

  lemma FeedableFed<E>(s: State<E>, ls: seq<Line>, f: bool)
    requires Feedable(s, f)
    ensures Feedable(Fed(s, ls, f), f)
  {
  }

  /** A nested %rep that is recorded is counted, and its %endrep uncounted. */
  lemma RecordOpens<E>(o: Oracle<E>, s: State<E>, c: string, rest: seq<Line>, f: bool)
    requires Recording(s) && Feedable(s, f)
    ensures var inner := Recorded(s, [Rep(c)]).(nested := s.nested + 1);
      Recording(inner) && Feedable(inner, f) && RunsTo(o, Fed(s, [Rep(c)] + rest, f), Fed(inner, rest, f))
  {
    hide RunsTo;
    assert Reversed([Rep(c)]) == [Rep(c)];
    FirstLine(o, s, Rep(c), rest, f);
  }

  lemma RecordCloses<E>(o: Oracle<E>, s: State<E>, f: bool)
    requires Recording(s) && Feedable(s, f) && s.nested > 0
    ensures RunsTo(o, Fed(s, [EndRep], f), Recorded(s, [EndRep]).(nested := s.nested - 1))
  {
    hide RunsTo, Fed;
    assert Reversed([EndRep]) == [EndRep];
    OnlyLine(o, s, EndRep, f);
  }

  /** A nested repeat is recorded whole: its %endrep only brings the nesting count back. */
  lemma {:induction false} RecordRep<E>(o: Oracle<E>, c: string, b: seq<Node>, s: State<E>, f: bool)
    requires Recording(s) && Feedable(s, f)
    ensures RunsTo(o, Fed(s, NodeLines(RepNode(c, b)), f), Recorded(s, NodeLines(RepNode(c, b))))
    decreases RepNode(c, b), 0
  {
    hide RunsTo, Fed, Reversed;
    var ls := LinesOf(b);
    var inner := Recorded(s, [Rep(c)]).(nested := s.nested + 1);
    RecordOpens(o, s, c, ls + [EndRep], f);
    FedTwice(inner, ls, [EndRep], f);
    RecordedFed(inner, ls, [EndRep], f);
    FeedableFed(inner, [EndRep], f);
    RecordRuns(o, b, Fed(inner, [EndRep], f), f);
    var done := Recorded(inner, ls);
    RecordCloses(o, done, f);
    var end := Recorded(done, [EndRep]).(nested := s.nested);
    RunsToTrans(o, Fed(inner, ls + [EndRep], f), Fed(done, [EndRep], f), end);
    RunsToTrans(o, Fed(s, [Rep(c)] + (ls + [EndRep]), f), Fed(inner, ls + [EndRep], f), end);
    RecordedTwice(s, [Rep(c)], ls);
    RecordedTwice(s, [Rep(c)] + ls, [EndRep]);
    assert [Rep(c)] + ls + [EndRep] == [Rep(c)] + (ls + [EndRep]);
  }

  // ---------- Lines that are carried out ----------

  ghost predicate Live<E>(s: State<E>) {
    && !s.fatal && s.defining.None? && s.nested == 0
    && !Dead(s)
    && (s.active.Some? ==> s.active.value in s.blocks && s.blocks[s.active.value].left != 0)
  }

  /** State `s` after a block with effect `e`. */
  function After<E>(s: State<E>, e: Effect<E>): State<E> {
    (if e.exited then Exit(s) else s).(env := e.env, out := s.out + e.out)
  }

  lemma AfterFed<E>(s: State<E>, e: Effect<E>, ls: seq<Line>, f: bool)
    requires Live(s)
    ensures After(Fed(s, ls, f), e) == Fed(After(s, e), ls, f)
    ensures Live(After(s, e)) && Live(Fed(s, ls, f))
    ensures Feedable(s, f) ==> Feedable(After(s, e), f)
  {
    FirstMarkerFed(s, ls, f);
  }

  lemma AfterThen<E>(s: State<E>, a: Effect<E>, b: Effect<E>)
    ensures After(After(s, a), b) == After(s, Then(a, b))
  {
    assert (s.out + a.out) + b.out == s.out + (a.out + b.out);
    var m := FirstMarker(s.expansion);
    if a.exited && b.exited && m.Some? && m.value in s.blocks {
      assert Exit(Exit(s)).blocks == Exit(s).blocks;
    }
  }

  /** The machine carries out a block: it emits what the block means and is otherwise back where it was. */
  lemma {:induction false} BlockRuns<E>(o: Oracle<E>, b: seq<Node>, s: State<E>, f: bool)
    requires Live(s) && Feedable(s, f)
    ensures RunsTo(o, Fed(s, LinesOf(b), f), After(s, Meaning(o, b, s.env)))
    decreases b, 0, 0
  {
    if b == [] {
      FedNothing(s, f);
      RunsToSelf(o, s);
      assert s.out + [] == s.out;
    } else {
      var rest := LinesOf(b[1..]);
      var first := NodeMeaning(o, b[0], s.env);
      FedTwice(s, NodeLines(b[0]), rest, f);
      AfterFed(s, first, rest, f);
      NodeRuns(o, b[0], Fed(s, rest, f), f);
      BlockRuns(o, b[1..], After(s, first), f);
      AfterThen(s, first, Meaning(o, b[1..], first.env));
      RunsToTrans(o, Fed(s, LinesOf(b), f), Fed(After(s, first), rest, f), After(s, Meaning(o, b, s.env)));
    }
  }

  lemma {:induction false} NodeRuns<E>(o: Oracle<E>, n: Node, s: State<E>, f: bool)
    requires Live(s) && Feedable(s, f)
    ensures RunsTo(o, Fed(s, NodeLines(n), f), After(s, NodeMeaning(o, n, s.env)))
    decreases n, 1, 0
  {
    match n
    case PlainNode(t) => OnlyLine(o, s, Plain(t), f);
    case OtherNode(t) => OnlyLine(o, s, Other(t), f); assert s.out + [] == s.out;
    case ExitNode => OnlyLine(o, s, ExitRep, f); assert s.out + [] == s.out;
    case CondNode(t, b, arms) => CondRuns(o, t, b, arms, s, f);
    case RepNode(c, b) => RepRuns(o, c, b, s, f);
  }

  lemma {:induction false} CondRuns<E>(o: Oracle<E>, t: string, b: seq<Node>, arms: Arms, s: State<E>, f: bool)
    requires Live(s) && Feedable(s, f)
    ensures RunsTo(o, Fed(s, NodeLines(CondNode(t, b, arms)), f), After(s, NodeMeaning(o, CondNode(t, b, arms), s.env)))
    decreases CondNode(t, b, arms), 0, 0
  {
    var j := o.test(s.env, t);
    var inner := s.(conds := [Tested(j)] + s.conds);
    var ls := LinesOf(b) + ArmLines(arms);
    FirstLine(o, s, If(t), ls, f);
    assert inner.conds[1..] == s.conds;
    if j > 0 {
      BlockRuns(o, b, Fed(inner, ArmLines(arms), f), f);
      TakenBranch(o, b, arms, s, inner, f);
    } else if j == 0 {
      SeekingArms(o, arms, inner, f);
      PassedBranch(o, b, arms, s, inner, f);
    } else {
      ClosedArms(o, arms, inner, f);
      FailedBranch(o, b, arms, s, inner, f);
    }
    RunsToTrans(o, Fed(s, [If(t)] + ls, f), Fed(inner, ls, f), After(s, NodeMeaning(o, CondNode(t, b, arms), s.env)));
  }

  /** A branch whose test held: its body is carried out and the branches after it are skipped. */
  lemma TakenBranch<E>(o: Oracle<E>, b: seq<Node>, arms: Arms, s: State<E>, inner: State<E>, f: bool)
    requires Live(s) && Feedable(s, f)
    requires inner.conds != [] && inner == s.(conds := inner.conds) && inner.conds[1..] == s.conds
      && Emitting(inner.conds[0])
    requires RunsTo(o, Fed(Fed(inner, ArmLines(arms), f), LinesOf(b), f),
      After(Fed(inner, ArmLines(arms), f), Meaning(o, b, s.env)))
    ensures RunsTo(o, Fed(inner, LinesOf(b) + ArmLines(arms), f), After(s, Meaning(o, b, s.env)))
  {
    var e := Meaning(o, b, s.env);
    FedTwice(inner, LinesOf(b), ArmLines(arms), f);
    AfterFed(inner, e, ArmLines(arms), f);
    ClosedArms(o, arms, After(inner, e), f);
    RunsToTrans(o, Fed(inner, LinesOf(b) + ArmLines(arms), f), Fed(After(inner, e), ArmLines(arms), f), After(s, e));
  }

  /** A branch whose test failed: its body is skipped and the next branches are tried. */
  lemma PassedBranch<E>(o: Oracle<E>, b: seq<Node>, arms: Arms, s: State<E>, inner: State<E>, f: bool)
    requires Live(s) && Feedable(s, f)
    requires inner.conds != [] && inner == s.(conds := inner.conds) && inner.conds[1..] == s.conds
      && inner.conds[0] == IfFalse
    requires RunsTo(o, Fed(inner, ArmLines(arms), f), After(s, ArmsMeaning(o, arms, s.env)))
    ensures RunsTo(o, Fed(inner, LinesOf(b) + ArmLines(arms), f), After(s, ArmsMeaning(o, arms, s.env)))
  {
    FedTwice(inner, LinesOf(b), ArmLines(arms), f);
    DeadRuns(o, b, Fed(inner, ArmLines(arms), f), f);
    RunsToTrans(o, Fed(inner, LinesOf(b) + ArmLines(arms), f), Fed(inner, ArmLines(arms), f),
      After(s, ArmsMeaning(o, arms, s.env)));
  }

  /** A branch whose test was in error: nothing up to the %endif is carried out. */
  lemma FailedBranch<E>(o: Oracle<E>, b: seq<Node>, arms: Arms, s: State<E>, inner: State<E>, f: bool)
    requires Live(s) && Feedable(s, f)
    requires inner.conds != [] && inner == s.(conds := inner.conds) && inner.conds[1..] == s.conds
      && inner.conds[0] == Never
    requires RunsTo(o, Fed(inner, ArmLines(arms), f), s)
    ensures RunsTo(o, Fed(inner, LinesOf(b) + ArmLines(arms), f), After(s, Effect(s.env, [], false)))
  {
    FedTwice(inner, LinesOf(b), ArmLines(arms), f);
    DeadRuns(o, b, Fed(inner, ArmLines(arms), f), f);
    assert s.out + [] == s.out;
    RunsToTrans(o, Fed(inner, LinesOf(b) + ArmLines(arms), f), Fed(inner, ArmLines(arms), f), s);
  }

  lemma {:induction false} SeekingArms<E>(o: Oracle<E>, a: Arms, inner: State<E>, f: bool)
    requires inner.conds != [] && inner.conds[0] == IfFalse
    requires Live(inner.(conds := inner.conds[1..])) && Feedable(inner, f)
    ensures RunsTo(o, Fed(inner, ArmLines(a), f),
      After(inner.(conds := inner.conds[1..]), ArmsMeaning(o, a, inner.env)))
    decreases a, 1, 0
  {
    var s := inner.(conds := inner.conds[1..]);
    match a
    case NoArms =>
      OnlyLine(o, inner, Endif, f);
      assert s.out + [] == s.out;
    case ElifArm(t, b, rest) =>
      SeekingElif(o, t, b, rest, inner, f);
    case ElseArm(b, rest) =>
      var next := inner.(conds := [ElseTrue] + s.conds);
      FirstLine(o, inner, Else, LinesOf(b) + ArmLines(rest), f);
      assert next.conds[1..] == s.conds;
      BlockRuns(o, b, Fed(next, ArmLines(rest), f), f);
      TakenBranch(o, b, rest, s, next, f);
      RunsToTrans(o, Fed(inner, ArmLines(a), f), Fed(next, LinesOf(b) + ArmLines(rest), f),
        After(s, ArmsMeaning(o, a, s.env)));
  }

  lemma {:induction false} SeekingElif<E>(o: Oracle<E>, t: string, b: seq<Node>, rest: Arms, inner: State<E>, f: bool)
    requires inner.conds != [] && inner.conds[0] == IfFalse
    requires Live(inner.(conds := inner.conds[1..])) && Feedable(inner, f)
    ensures var a := ElifArm(t, b, rest);
      RunsTo(o, Fed(inner, ArmLines(a), f), After(inner.(conds := inner.conds[1..]), ArmsMeaning(o, a, inner.env)))
    decreases ElifArm(t, b, rest), 0, 0
  {
    var a := ElifArm(t, b, rest);
    var s := inner.(conds := inner.conds[1..]);
    var j := o.test(s.env, t);
    var next := inner.(conds := [Tested(j)] + s.conds);
    FirstLine(o, inner, Elif(t), LinesOf(b) + ArmLines(rest), f);
    assert next.conds[1..] == s.conds;
    if j > 0 {
      BlockRuns(o, b, Fed(next, ArmLines(rest), f), f);
      TakenBranch(o, b, rest, s, next, f);
    } else if j == 0 {
      assert next.conds == inner.conds;
      SeekingArms(o, rest, next, f);
      PassedBranch(o, b, rest, s, next, f);
    } else {
      ClosedArms(o, rest, next, f);
      FailedBranch(o, b, rest, s, next, f);
    }
    RunsToTrans(o, Fed(inner, ArmLines(a), f), Fed(next, LinesOf(b) + ArmLines(rest), f),
      After(s, ArmsMeaning(o, a, s.env)));
  }

  // ---------- Repeats ----------

  /** State `s` with a repeat of `body` pending, its counter at `left`. */
  function Repeating<E>(s: State<E>, id: nat, body: seq<Line>, left: int): State<E> {
    s.(blocks := s.blocks[id := Block(left, Reversed(body), s.active, None)],
       expansion := [Marker(id)] + s.expansion,
       active := Some(id))
  }

  lemma {:induction false} RepRuns<E>(o: Oracle<E>, c: string, b: seq<Node>, s: State<E>, f: bool)
    requires Live(s) && Feedable(s, f)
    ensures RunsTo(o, Fed(s, NodeLines(RepNode(c, b)), f), After(s, NodeMeaning(o, RepNode(c, b), s.env)))
    decreases RepNode(c, b), 0, 0
  {
    var id := FreshId(s.blocks);
    var times := o.count(s.env, c);
    RecordedRep(o, c, b, s, f);
    LoopRuns(o, b, times, s, id);
    RunsToTrans(o, Fed(s, NodeLines(RepNode(c, b)), f), Repeating(s, id, LinesOf(b), times + 1),
                After(s, Repeated(o, b, times, s.env).(exited := false)));
  }

  /** %rep to %endrep: the body is recorded and its marker is pending. */
  lemma RecordedRep<E>(o: Oracle<E>, c: string, b: seq<Node>, s: State<E>, f: bool)
    requires Live(s) && Feedable(s, f)
    ensures RunsTo(o, Fed(s, NodeLines(RepNode(c, b)), f),
                   Repeating(s, FreshId(s.blocks), LinesOf(b), o.count(s.env, c) + 1))
  {
    var id := FreshId(s.blocks);
    var ls := LinesOf(b);
    var start := Starting(o, s, c);
    RepStep(o, c, ls + [EndRep], s, f);
    FedTwice(start, ls, [EndRep], f);
    RecordedFed(start, ls, [EndRep], f);
    RecordRuns(o, b, Fed(start, [EndRep], f), f);
    var end := Repeating(s, id, ls, o.count(s.env, c) + 1);
    EndRepStep(o, c, ls, s, f);
    RunsToTrans(o, Fed(start, ls + [EndRep], f), Fed(Recorded(start, ls), [EndRep], f), end);
    RunsToTrans(o, Fed(s, [Rep(c)] + (ls + [EndRep]), f), Fed(start, ls + [EndRep], f), end);
  }

  lemma RepStep<E>(o: Oracle<E>, c: string, ls: seq<Line>, s: State<E>, f: bool)
    requires Live(s) && Feedable(s, f)
    ensures RunsTo(o, Fed(s, [Rep(c)] + ls, f), Fed(Starting(o, s, c), ls, f))
    ensures Recording(Starting(o, s, c))
  {
    FirstLine(o, s, Rep(c), ls, f);
  }

  lemma EndRepStep<E>(o: Oracle<E>, c: string, ls: seq<Line>, s: State<E>, f: bool)
    requires Live(s) && Feedable(s, f)
    ensures RunsTo(o, Fed(Recorded(Starting(o, s, c), ls), [EndRep], f),
                   Repeating(s, FreshId(s.blocks), ls, o.count(s.env, c) + 1))
  {
    var done := Recorded(Starting(o, s, c), ls);
    OnlyLine(o, done, EndRep, f);
    assert Reversed(ls) + [] == Reversed(ls);
    assert done.blocks == Repeating(s, FreshId(s.blocks), ls, o.count(s.env, c) + 1).blocks;
  }

  /** A marker with turns left runs the body again; the last one frees its own block. */
  lemma {:induction false} LoopRuns<E>(o: Oracle<E>, b: seq<Node>, times: int, s: State<E>, id: nat)
    requires Live(s) && id !in s.blocks
    ensures RunsTo(o, Repeating(s, id, LinesOf(b), times + 1), After(s, Repeated(o, b, times, s.env).(exited := false)))
    decreases b, 1, times
  {
    if times <= 0 {
      LoopEnds(o, LinesOf(b), times + 1, s, id);
      assert s.out + [] == s.out;
    } else {
      var turn := Meaning(o, b, s.env);
      var start := Repeating(s, id, LinesOf(b), times);
      var next := s.(env := turn.env, out := s.out + turn.out);
      LoopTurn(o, LinesOf(b), times, s, id);
      BlockRuns(o, b, start, false);
      TurnEnds(s, id, LinesOf(b), times, turn);
      RunsToTrans(o, Repeating(s, id, LinesOf(b), times + 1), Fed(start, LinesOf(b), false), After(start, turn));
      var more := if turn.exited then Effect(turn.env, [], false)
                  else Repeated(o, b, times - 1, turn.env).(exited := false);
      if turn.exited {
        LoopEnds(o, LinesOf(b), 1, next, id);
        assert next.out + [] == next.out;
      } else {
        LoopRuns(o, b, times - 1, next, id);
      }
      RunsToTrans(o, Repeating(s, id, LinesOf(b), times + 1), After(start, turn), After(next, more));
      LoopAdds(o, b, times, s, more);
    }
  }

  lemma LoopAdds<E>(o: Oracle<E>, b: seq<Node>, times: int, s: State<E>, more: Effect<E>)
    requires times > 0
    requires var turn := Meaning(o, b, s.env);
      more == if turn.exited then Effect(turn.env, [], false)
              else Repeated(o, b, times - 1, turn.env).(exited := false)
    ensures var turn := Meaning(o, b, s.env);
      After(s.(env := turn.env, out := s.out + turn.out), more)
        == After(s, Repeated(o, b, times, s.env).(exited := false))
  {
    var turn := Meaning(o, b, s.env);
    assert turn.out + [] == turn.out;
    assert (s.out + turn.out) + more.out == s.out + (turn.out + more.out);
  }

  lemma LoopEnds<E>(o: Oracle<E>, body: seq<Line>, left: int, s: State<E>, id: nat)
    requires Live(s) && id !in s.blocks && left <= 1
    ensures RunsTo(o, Repeating(s, id, body, left), s)
  {
    var r := Repeating(s, id, body, left);
    RunsToOne(o, r);
    assert r.blocks - {id} == s.blocks;
    assert r.expansion[1..] == s.expansion;
  }

  lemma LoopTurn<E>(o: Oracle<E>, body: seq<Line>, times: int, s: State<E>, id: nat)
    requires Live(s) && id !in s.blocks && times >= 1
    ensures RunsTo(o, Repeating(s, id, body, times + 1), Fed(Repeating(s, id, body, times), body, false))
  {
    var r := Repeating(s, id, body, times + 1);
    RunsToOne(o, r);
    ReversedTwice(body);
    assert Step(o, r).blocks == Repeating(s, id, body, times).blocks;
  }

  lemma TurnEnds<E>(s: State<E>, id: nat, body: seq<Line>, times: int, turn: Effect<E>)
    requires Live(s) && id !in s.blocks
    ensures After(Repeating(s, id, body, times), turn)
         == Repeating(s.(env := turn.env, out := s.out + turn.out), id, body, if turn.exited then 1 else times)
  {
    var start := Repeating(s, id, body, times);
    assert FirstMarker(start.expansion) == Some(id);
    if turn.exited {
      assert Exit(start).blocks == Repeating(s, id, body, 1).blocks;
    }
  }

  // ---------- Whole programs ----------

  function Start<E>(program: seq<Line>, env: E): State<E> {
    State(program, [], [], None, None, 0, map[], false, env, [])
  }

  /** Every well-nested program is emitted as its tree says, and leaves every stack empty. */
  lemma ProgramRuns<E>(o: Oracle<E>, program: seq<Node>, env: E)
    ensures var e := Meaning(o, program, env);
      RunsTo(o, Start(LinesOf(program), env), Start([], e.env).(out := e.out))
  {
    var s := Start([], env);
    BlockRuns(o, program, s, true);
    assert LinesOf(program) + [] == LinesOf(program);
    assert [] + Meaning(o, program, env).out == Meaning(o, program, env).out;
  }

  lemma {:induction false} RunStaysAtEnd<E>(o: Oracle<E>, n: nat, s: State<E>)
    requires AtEnd(s)
    ensures Run(o, n, s) == s
  {
    if n > 0 {
      RunStaysAtEnd(o, n - 1, s);
    }
  }

  lemma RunMovesOn<E>(o: Oracle<E>, n: nat, s: State<E>)
    requires !AtEnd(s) && AtEnd(Run(o, n, s))
    ensures n > 0 && Run(o, n, s) == Run(o, n - 1, Step(o, s))
  {
  }

  class Preprocessor<E> {
    const oracle: Oracle<E>
    var input: seq<Line>
    var expansion: seq<Item>
    var conds: seq<CondState>
    var active: Option<nat>
    var defining: Option<nat>
    var nested: nat
    var blocks: map<nat, Block>
    var fatal: bool
    var env: E
    ghost var out: seq<string>

    ghost function Now(): State<E>
      reads this
    {
      State(input, expansion, conds, active, defining, nested, blocks, fatal, env, out)
    }

    constructor (oracle: Oracle<E>, program: seq<Line>, env: E)
      ensures Now() == Start(program, env) && this.oracle == oracle
    {
      this.oracle, this.input, this.env := oracle, program, env;
      expansion, conds, active, defining, nested, blocks, fatal, out := [], [], None, None, 0, map[], false, [];
    }

    /** `do_directive`: whether the line was taken as a directive. */
    method DoDirective(l: Line) returns (taken: bool)
      modifies this
      ensures out == old(out)
      ensures taken ==> Now() == Process(oracle, old(Now()), l)
      ensures !taken ==> Pass(oracle, Now(), l) == Process(oracle, old(Now()), l)
    {
      var dead := conds != [] && !Emitting(conds[0]);
      var stopped := active.Some? && active.value in blocks && blocks[active.value].left == 0;
      if l.Plain? || ((dead || stopped) && !IsCondition(l)) {
        return false;
      }
      if defining.Some? && !l.Rep? && !l.EndRep? {
        return false;
      }
      if defining.Some? && l.Rep? {
        nested := nested + 1;
        return false;
      }
      if defining.Some? && nested > 0 {
        nested := nested - 1;
        return false;
      }
      taken := true;
      CarryOut(l);
    }

    /** The switch over the directives. */
    method CarryOut(l: Line)
      requires !l.Plain?
      modifies this
      ensures out == old(out)
      ensures Now() == Directive(oracle, old(Now()), l)
    {
      match l
      case Other(t) => env := oracle.run(env, t);
      case If(e) =>
        var dead := conds != [] && !Emitting(conds[0]);
        conds := [if dead then Never else Tested(oracle.test(env, e))] + conds;
      case Elif(e) => ChangeCondition(l);
      case Else => ChangeCondition(l);
      case Endif =>
        if conds == [] { fatal := true; } else { conds := conds[1..]; }
      case Rep(e) =>
        var id := FreshId(blocks);
        blocks := blocks[id := Block(oracle.count(env, e) + 1, [], active, defining)];
        defining := Some(id);
      case EndRep =>
        if defining.Some? && defining.value in blocks {
          var id := defining.value;
          expansion := [Marker(id)] + expansion;
          active := Some(id);
          defining := blocks[id].outer;
        }
      case ExitRep => ExitRepeat();
    }

    /** %elif and %else: the state of the innermost condition moves on. */
    method ChangeCondition(l: Line)
      requires l.Elif? || l.Else?
      modifies this`conds, this`fatal
      ensures Now() == Directive(oracle, old(Now()), l)
    {
      if conds == [] {
        fatal := true;
        return;
      }
      var c := conds[0];
      if c == IfTrue {
        c := if l.Elif? then Done else ElseFalse;
      } else if c == Done {
        c := if l.Elif? then Done else ElseFalse;
      } else if c == IfFalse {
        c := if l.Elif? then Tested(oracle.test(env, l.expr)) else ElseTrue;
      } else {
        c := Never;
      }
      conds := [c] + conds[1..];
    }

    /** %exitrep walks the pending lines to the first marker and leaves its block one turn. */
    method ExitRepeat()
      modifies this`blocks
      ensures Now() == Exit(old(Now()))
    {
      var k := 0;
      while k < |expansion| && !expansion[k].Marker?
        invariant 0 <= k <= |expansion|
        invariant FirstMarker(expansion[k..]) == FirstMarker(expansion)
      {
        assert expansion[k..][1..] == expansion[k + 1..];
        k := k + 1;
      }
      if k < |expansion| && expansion[k].id in blocks {
        var id := expansion[k].id;
        blocks := blocks[id := blocks[id].(left := 1)];
      }
    }

    /** What is done with a fetched line; the line to hand out, if it is one. */
    method HandleLine(l: Line) returns (emitted: Option<string>)
      modifies this
      ensures Now() == Process(oracle, old(Now()), l)
      ensures out == old(out) + (if emitted.Some? then [emitted.value] else [])
    {
      emitted := None;
      var taken := DoDirective(l);
      if taken {
      } else if defining.Some? && defining.value in blocks {
        var b := blocks[defining.value];
        blocks := blocks[defining.value := b.(body := [l] + b.body)];
      } else if conds != [] && !Emitting(conds[0]) {
      } else if active.Some? && active.value in blocks && blocks[active.value].left == 0 {
      } else if l.Plain? {
        emitted := Some(oracle.write(env, l.text));
        out := out + [emitted.value];
      }
    }

    /** The marker loop's body: push the block again, or drop the active block and the marker. */
    method HandleMarker()
      requires expansion != [] && expansion[0].Marker?
      modifies this
      ensures Now() == AtMarker(old(Now()), old(expansion[0].id))
    {
      var id := expansion[0].id;
      if id in blocks && blocks[id].left > 1 {
        var b := blocks[id];
        blocks := blocks[id := b.(left := b.left - 1)];
        PushBody(b.body);
      } else if active.Some? && active.value in blocks {
        var m := active.value;
        active := blocks[m].below;
        blocks := blocks - {m};
        expansion := expansion[1..];
      } else {
        fatal := true;
      }
    }

    /** Stored lines are pushed one by one on the front, which undoes their stored order. */
    method PushBody(body: seq<Line>)
      modifies this`expansion
      ensures expansion == Texts(Reversed(body)) + old(expansion)
    {
      assert body[..0] == [];
      for k := 0 to |body|
        invariant expansion == Texts(Reversed(body[..k])) + old(expansion)
      {
        assert body[..k + 1] == body[..k] + [body[k]];
        ReversedConcat(body[..k], [body[k]]);
        assert Reversed([body[k]]) == [body[k]];
        expansion := [Text(body[k])] + expansion;
      }
      assert body[..|body|] == body;
    }

    /**
     The next line, or None at the end of the file. The run that starts here ends after `fuel` steps
     in `end`; it is the same run that goes on afterwards.
     */
    method GetLine(ghost fuel: nat, ghost end: State<E>) returns (line: Option<string>, ghost left: nat)
      requires Run(oracle, fuel, Now()) == end && AtEnd(end)
      modifies this
      ensures left <= fuel && Run(oracle, left, Now()) == end
      ensures line.Some? ==> out == old(out) + [line.value] && left < fuel
      ensures line.None? ==> out == old(out) && Now() == end
    {
      line, left := None, fuel;
      while !fatal && (expansion != [] || input != [])
        invariant left <= fuel && Run(oracle, left, Now()) == end
        invariant out == old(out) && line.None?
        decreases left
      {
        RunMovesOn(oracle, left, Now());
        line := Turn();
        left := left - 1;
        if line.Some? {
          return;
        }
      }
      RunStaysAtEnd(oracle, left, Now());
    }

    /** One turn of the loop. */
    method Turn() returns (line: Option<string>)
      requires !AtEnd(Now())
      modifies this
      ensures Now() == Step(oracle, old(Now()))
      ensures out == old(out) + (if line.Some? then [line.value] else [])
    {
      line := None;
      if expansion != [] && expansion[0].Marker? {
        HandleMarker();
      } else {
        var l;
        if expansion != [] {
          l, expansion := expansion[0].line, expansion[1..];
        } else {
          l, input := input[0], input[1..];
        }
        line := HandleLine(l);
      }
    }
  }

  /** Preprocessing a well-nested program hands out exactly the lines its tree selects, in order. */
  method Preprocess<E>(o: Oracle<E>, program: seq<Node>, env: E) returns (lines: seq<string>, pp: Preprocessor<E>)
    ensures lines == Meaning(o, program, env).out
    ensures pp.env == Meaning(o, program, env).env
    ensures pp.conds == [] && pp.expansion == [] && pp.active.None? && pp.defining.None? && pp.blocks == map[]
      && !pp.fatal
  {
    pp := new Preprocessor(o, LinesOf(program), env);
    ghost var start := Start(LinesOf(program), env);
    ghost var end := Start([], Meaning(o, program, env).env).(out := Meaning(o, program, env).out);
    ProgramRuns(o, program, env);
    ghost var left: nat :| Run(o, left, start) == end;
    lines := [];
    var line: Option<string>;
    line, left := pp.GetLine(left, end);
    while line.Some?
      invariant fresh(pp) && pp.oracle == o
      invariant Run(o, left, pp.Now()) == end
      invariant pp.out == lines + (if line.Some? then [line.value] else [])
      invariant line.None? ==> pp.Now() == end
      decreases left + if line.Some? then 1 else 0
    {
      lines := lines + [line.value];
      line, left := pp.GetLine(left, end);
    }
  }
}
