/**
 Single-line macro expansion (asm/aasm-prep.cpp, `expand_smacro`), for macros without
 parameters.

 The source keeps a to-do list of tokens. A macro call is replaced by the macro's body
 followed by an end marker, and the macro's `in_progress` flag is set until that marker
 comes up; a macro whose flag is set is not expanded. The specification is recursive
 substitution with a hide set. The two are shown to agree, flags and the step limit included.
 */
module SingleLineMacros {
  import opened Common

  /** A token of a stored expansion: a literal, `%?` (the name as called) or `%??` (the name as defined). */
  datatype Piece = Literal(text: string) | AsCalled | AsDefined

  /** `stored` is the expansion list as the source keeps it: last token first. */
  datatype Macro = Macro(name: string, caseSensitive: bool, stored: seq<Piece>)

  /** A macro table: the chain that lookup walks, newest definition first. */
  type Table = seq<Macro>

  /** A token of the to-do list: an ordinary token, or the end marker of macro number `mac`. */
  datatype Token = Ordinary(text: string) | MacroEnd(mac: nat)

  /** 2^20 iterations of the main loop, at which the source gives up. */
  const DEADMAN_LIMIT: nat := 0x10_0000

  // ---------- Lookup ----------

  function Fold(c: char): char {
    if 'A' <= c <= 'Z' then ((c as int) + 32) as char else c
  }

  predicate SameIgnoringCase(a: string, b: string) {
    |a| == |b| && forall i :: 0 <= i < |a| ==> Fold(a[i]) == Fold(b[i])
  }

  predicate Matches(m: Macro, text: string) {
    if m.caseSensitive then m.name == text else SameIgnoringCase(m.name, text)
  }

  /** The first macro of the chain whose name matches. */
  function Lookup(table: Table, text: string, from: nat := 0): (r: Option<nat>)
    ensures r.Some? ==> from <= r.value < |table| && Matches(table[r.value], text)
    ensures forall i :: from <= i < |table| && (r.Some? ==> i < r.value) ==> !Matches(table[i], text)
    decreases |table| - from
  {
    if from >= |table| then None
    else if Matches(table[from], text) then Some(from)
    else Lookup(table, text, from + 1)
  }

  function PieceText(m: Macro, called: string, p: Piece): string {
    match p
    case Literal(t) => t
    case AsCalled => called
    case AsDefined => m.name
  }

  /** The body of a macro in reading order. */
  function Body(m: Macro, called: string, stored: seq<Piece> := m.stored): (r: seq<string>)
    ensures |r| == |stored|
    ensures forall i :: 0 <= i < |r| ==> r[i] == PieceText(m, called, stored[|stored| - 1 - i])
  {
    if stored == [] then [] else Body(m, called, stored[1..]) + [PieceText(m, called, stored[0])]
  }

  // ---------- The specification: recursive substitution with a hide set ----------

  predicate HasBody(table: Table, i: nat) {
    i < |table| && table[i].stored != []
  }

  /** Only macros with a body are ever in progress. */
  ghost predicate Indices(table: Table, hidden: set<nat>) {
    forall i | i in hidden :: HasBody(table, i)
  }

  ghost function Room(table: Table, hidden: set<nat>): nat
    requires Indices(table, hidden)
  {
    IndicesBound(table, hidden);
    |table| - |hidden|
  }

  ghost function Below(n: nat): (s: set<nat>)
    ensures forall i: nat :: i in s <==> i < n
    ensures |s| == n
  {
    if n == 0 then {} else Below(n - 1) + {n - 1}
  }

  lemma IndicesBound(table: Table, hidden: set<nat>)
    requires Indices(table, hidden)
    ensures |hidden| <= |table|
  {
    var all := Below(|table|);
    assert all == hidden + (all - hidden);
  }

  /** The macro that a token calls, if it calls one that is not hidden. */
  ghost function Call(table: Table, hidden: set<nat>, text: string): (r: Option<nat>)
    ensures r.Some? ==> r.value < |table| && r.value !in hidden
  {
    var l := Lookup(table, text);
    if l.Some? && l.value !in hidden then l else None
  }

  ghost function Substitute(table: Table, hidden: set<nat>, line: seq<string>): seq<string>
    requires Indices(table, hidden)
    decreases Room(table, hidden), |line|
  {
    if line == [] then []
    else SubstituteOne(table, hidden, line[0]) + Substitute(table, hidden, line[1..])
  }

  ghost function SubstituteOne(table: Table, hidden: set<nat>, text: string): seq<string>
    requires Indices(table, hidden)
    decreases Room(table, hidden), 0
  {
    var call := Call(table, hidden, text);
    if call.None? then [text]
    else if table[call.value].stored == [] then []
    else Substitute(table, hidden + {call.value}, Body(table[call.value], text))
  }

  /** How many times round its main loop the source goes for a line. */
  ghost function Steps(table: Table, hidden: set<nat>, line: seq<string>): nat
    requires Indices(table, hidden)
    decreases Room(table, hidden), |line|
  {
    if line == [] then 0
    else StepsOne(table, hidden, line[0]) + Steps(table, hidden, line[1..])
  }

  ghost function StepsOne(table: Table, hidden: set<nat>, text: string): (n: nat)
    requires Indices(table, hidden)
    ensures n > 0
    decreases Room(table, hidden), 0
  {
    var call := Call(table, hidden, text);
    if call.None? || table[call.value].stored == [] then 1
    else 2 + Steps(table, hidden + {call.value}, Body(table[call.value], text))
  }

  // ---------- What the to-do list stands for ----------

  ghost function Markers(todo: seq<Token>): (ms: set<nat>)
    ensures forall m :: m in ms <==> MacroEnd(m) in todo
  {
    if todo == [] then {}
    else (if todo[0].MacroEnd? then {todo[0].mac} else {}) + Markers(todo[1..])
  }

  /** Every pending end marker belongs to a macro of the table that is not in `outer`, and stands once. */
  ghost predicate Pending(table: Table, outer: set<nat>, todo: seq<Token>) {
    && Indices(table, outer)
    && (forall i :: 0 <= i < |todo| && todo[i].MacroEnd? ==> HasBody(table, todo[i].mac) && todo[i].mac !in outer)
    && (forall i, j :: 0 <= i < j < |todo| && todo[i].MacroEnd? ==> todo[i] != todo[j])
  }

  /** What is still to be written for a to-do list; `outer` are the flags set before the line. */
  ghost function Rest(table: Table, outer: set<nat>, todo: seq<Token>): seq<string>
    requires Pending(table, outer, todo)
  {
    if todo == [] then []
    else if todo[0].MacroEnd? then Rest(table, outer, todo[1..])
    else SubstituteOne(table, outer + Markers(todo), todo[0].text) + Rest(table, outer, todo[1..])
  }

  ghost function StepsLeft(table: Table, outer: set<nat>, todo: seq<Token>): nat
    requires Pending(table, outer, todo)
  {
    if todo == [] then 0
    else if todo[0].MacroEnd? then 1 + StepsLeft(table, outer, todo[1..])
    else StepsOne(table, outer + Markers(todo), todo[0].text) + StepsLeft(table, outer, todo[1..])
  }

  function Ordinaries(line: seq<string>): (r: seq<Token>)
    ensures |r| == |line|
    ensures forall i :: 0 <= i < |line| ==> r[i] == Ordinary(line[i])
  {
    seq(|line|, i requires 0 <= i < |line| => Ordinary(line[i]))
  }

  lemma MarkersOfOrdinaries(table: Table, outer: set<nat>, line: seq<string>, todo: seq<Token>)
    requires Pending(table, outer, todo)
    ensures Markers(Ordinaries(line) + todo) == Markers(todo)
    ensures Pending(table, outer, Ordinaries(line) + todo)
  {
  }

  lemma Associative<T>(a: seq<T>, b: seq<T>, c: seq<T>)
    ensures (a + b) + c == a + (b + c)
  {
  }

  lemma FirstOrdinary(table: Table, outer: set<nat>, all: seq<Token>)
    requires Pending(table, outer, all) && all != [] && all[0].Ordinary?
    ensures Pending(table, outer, all[1..]) && Indices(table, outer + Markers(all))
    ensures Rest(table, outer, all)
      == SubstituteOne(table, outer + Markers(all), all[0].text) + Rest(table, outer, all[1..])
    ensures StepsLeft(table, outer, all)
      == StepsOne(table, outer + Markers(all), all[0].text) + StepsLeft(table, outer, all[1..])
  {
    hide SubstituteOne, StepsOne;
  }

  lemma FirstOfLine(table: Table, hidden: set<nat>, line: seq<string>)
    requires Indices(table, hidden) && line != []
    ensures Substitute(table, hidden, line)
      == SubstituteOne(table, hidden, line[0]) + Substitute(table, hidden, line[1..])
    ensures Steps(table, hidden, line) == StepsOne(table, hidden, line[0]) + Steps(table, hidden, line[1..])
  {
    hide SubstituteOne, StepsOne;
  }

  lemma NothingLeft(table: Table, hidden: set<nat>)
    requires Indices(table, hidden)
    ensures Substitute(table, hidden, []) == [] && Steps(table, hidden, []) == 0
  {
  }

  /** A run of ordinary tokens in front of a to-do list is substituted under the list's own markers. */
  lemma {:induction false} RestOfOrdinaries(table: Table, outer: set<nat>, line: seq<string>, todo: seq<Token>,
                                            all: seq<Token>, hidden: set<nat>)
    requires Pending(table, outer, todo)
    requires all == Ordinaries(line) + todo && Pending(table, outer, all)
    requires hidden == outer + Markers(todo) && Indices(table, hidden)
    ensures Rest(table, outer, all) == Substitute(table, hidden, line) + Rest(table, outer, todo)
  {
    hide Rest, Substitute, SubstituteOne, Pending;
    if line == [] {
      assert all == todo;
      NothingLeft(table, hidden);
    } else {
      MarkersOfOrdinaries(table, outer, line, todo);
      var next := all[1..];
      assert next == Ordinaries(line[1..]) + todo;
      FirstOrdinary(table, outer, all);
      RestOfOrdinaries(table, outer, line[1..], todo, next, hidden);
      FirstOfLine(table, hidden, line);
      Associative(SubstituteOne(table, hidden, line[0]), Substitute(table, hidden, line[1..]),
        Rest(table, outer, todo));
    }
  }

  lemma {:induction false} StepsOfOrdinaries(table: Table, outer: set<nat>, line: seq<string>, todo: seq<Token>,
                                             all: seq<Token>, hidden: set<nat>)
    requires Pending(table, outer, todo)
    requires all == Ordinaries(line) + todo && Pending(table, outer, all)
    requires hidden == outer + Markers(todo) && Indices(table, hidden)
    ensures StepsLeft(table, outer, all) == Steps(table, hidden, line) + StepsLeft(table, outer, todo)
  {
    hide StepsLeft, Steps, StepsOne, Pending;
    if line == [] {
      assert all == todo;
      NothingLeft(table, hidden);
    } else {
      MarkersOfOrdinaries(table, outer, line, todo);
      var next := all[1..];
      assert next == Ordinaries(line[1..]) + todo;
      FirstOrdinary(table, outer, all);
      StepsOfOrdinaries(table, outer, line[1..], todo, next, hidden);
      FirstOfLine(table, hidden, line);
    }
  }

  /** Replacing a call by the body and an end marker leaves what is to be written, and is one step. */
  lemma CallStep(table: Table, outer: set<nat>, todo: seq<Token>, mac: nat, next: seq<Token>)
    requires Pending(table, outer, todo) && todo != [] && todo[0].Ordinary?
    requires Call(table, outer + Markers(todo), todo[0].text) == Some(mac)
    requires table[mac].stored != []
    requires next == Ordinaries(Body(table[mac], todo[0].text)) + ([MacroEnd(mac)] + todo[1..])
    ensures Pending(table, outer, next) && Markers(next) == Markers(todo) + {mac}
    ensures Rest(table, outer, next) == Rest(table, outer, todo)
    ensures StepsLeft(table, outer, next) == StepsLeft(table, outer, todo) - 1
  {
    var body := Body(table[mac], todo[0].text);
    var tail := [MacroEnd(mac)] + todo[1..];
    MarkersAfterCall(table, outer, todo, mac, tail);
    MarkersOfOrdinaries(table, outer, body, tail);
    var hidden := outer + Markers(todo);
    assert outer + Markers(tail) == hidden + {mac};
    RestOfOrdinaries(table, outer, body, tail, next, hidden + {mac});
    StepsOfOrdinaries(table, outer, body, tail, next, hidden + {mac});
  }

  lemma MarkersAfterCall(table: Table, outer: set<nat>, todo: seq<Token>, mac: nat, tail: seq<Token>)
    requires Pending(table, outer, todo) && todo != [] && todo[0].Ordinary?
    requires HasBody(table, mac) && mac !in outer && mac !in Markers(todo)
    requires tail == [MacroEnd(mac)] + todo[1..]
    ensures Pending(table, outer, tail) && Markers(tail) == Markers(todo) + {mac}
    ensures Rest(table, outer, tail) == Rest(table, outer, todo[1..])
    ensures StepsLeft(table, outer, tail) == 1 + StepsLeft(table, outer, todo[1..])
  {
    assert Markers(todo[1..]) == Markers(todo);
    assert tail[1..] == todo[1..];
  }

  lemma EmptyCallStep(table: Table, outer: set<nat>, todo: seq<Token>)
    requires Pending(table, outer, todo) && todo != [] && todo[0].Ordinary?
    requires var l := Lookup(table, todo[0].text); l.Some? && table[l.value].stored == []
    ensures Pending(table, outer, todo[1..]) && Markers(todo[1..]) == Markers(todo)
    ensures Rest(table, outer, todo[1..]) == Rest(table, outer, todo)
    ensures StepsLeft(table, outer, todo[1..]) == StepsLeft(table, outer, todo) - 1
  {
    assert Markers(todo[1..]) == Markers(todo);
  }

  lemma PlainStep(table: Table, outer: set<nat>, todo: seq<Token>)
    requires Pending(table, outer, todo) && todo != [] && todo[0].Ordinary?
    requires Call(table, outer + Markers(todo), todo[0].text).None?
    ensures Pending(table, outer, todo[1..]) && Markers(todo[1..]) == Markers(todo)
    ensures [todo[0].text] + Rest(table, outer, todo[1..]) == Rest(table, outer, todo)
    ensures StepsLeft(table, outer, todo[1..]) == StepsLeft(table, outer, todo) - 1
  {
    assert Markers(todo[1..]) == Markers(todo);
  }

  lemma EndStep(table: Table, outer: set<nat>, todo: seq<Token>)
    requires Pending(table, outer, todo) && todo != [] && todo[0].MacroEnd?
    ensures Pending(table, outer, todo[1..]) && Markers(todo[1..]) == Markers(todo) - {todo[0].mac}
    ensures todo[0].mac !in outer
  {
    assert todo == [todo[0]] + todo[1..];
    assert todo[0] !in todo[1..];
  }

  /** The to-do list after one turn of the loop. */
  ghost function Turn(table: Table, outer: set<nat>, todo: seq<Token>): seq<Token>
    requires todo != []
  {
    var call := if todo[0].Ordinary? then Call(table, outer + Markers(todo), todo[0].text) else None;
    if call.Some? && table[call.value].stored != []
    then Ordinaries(Body(table[call.value], todo[0].text)) + ([MacroEnd(call.value)] + todo[1..])
    else todo[1..]
  }

  ghost function TodoAfter(table: Table, outer: set<nat>, line: seq<string>, turns: nat): seq<Token> {
    if turns == 0 then Ordinaries(line)
    else
      var todo := TodoAfter(table, outer, line, turns - 1);
      if todo == [] then [] else Turn(table, outer, todo)
  }

  lemma TodoBegins(table: Table, outer: set<nat>, line: seq<string>)
    ensures TodoAfter(table, outer, line, 0) == Ordinaries(line)
  {
  }

  lemma TodoGoesOn(table: Table, outer: set<nat>, line: seq<string>, turns: nat, todo: seq<Token>)
    requires todo == TodoAfter(table, outer, line, turns) && todo != []
    ensures TodoAfter(table, outer, line, turns + 1) == Turn(table, outer, todo)
  {
  }

  lemma MarkersAreNew(table: Table, outer: set<nat>, todo: seq<Token>)
    requires Pending(table, outer, todo)
    ensures Markers(todo) !! outer
  {
  }

  // ---------- The machine ----------

  class Expander {
    const table: Table
    /** The macros whose `in_progress` flag is set; it outlives a call. */
    var flags: set<nat>

    ghost predicate Valid()
      reads this
    {
      Indices(table, flags)
    }

    constructor (table: Table)
      ensures Valid() && this.table == table && flags == {}
    {
      this.table := table;
      this.flags := {};
    }

    /** The main token loop. `ok` is false when the step limit stops it. */
    method Expand(line: seq<string>) returns (out: seq<string>, ok: bool)
      requires Valid()
      modifies this
      ensures Valid()
      ensures ok <==> Steps(table, old(flags), line) < 0x10_0000
      ensures ok ==> out == Substitute(table, old(flags), line) && flags == old(flags)
      ensures !ok ==>
        var todo := TodoAfter(table, old(flags), line, 0xF_FFFF);
        && flags == old(flags) + Markers(todo) && Markers(todo) !! old(flags)
        && Pending(table, old(flags), todo)
          && out + Rest(table, old(flags), todo) == Substitute(table, old(flags), line)
    {
      hide TodoAfter, Turn, Substitute, Steps, SubstituteOne, StepsOne;
      ghost var outer := flags;
      ghost var goal := Substitute(table, flags, line);
      ghost var total := Steps(table, flags, line);
      var todo := Ordinaries(line);
      var deadman := DEADMAN_LIMIT;
      out, ok := [], true;
      assert Pending(table, outer, []);
      assert todo + [] == todo;
      TodoBegins(table, outer, line);
      RestOfOrdinaries(table, outer, line, [], todo, outer);
      StepsOfOrdinaries(table, outer, line, [], todo, outer);
      while todo != []
        invariant Pending(table, outer, todo)
        invariant flags == outer + Markers(todo)
        invariant todo == TodoAfter(table, outer, line, DEADMAN_LIMIT - deadman)
        invariant out + Rest(table, outer, todo) == goal
        invariant DEADMAN_LIMIT - deadman + StepsLeft(table, outer, todo) == total
        invariant 0 < deadman
        decreases deadman
      {
        deadman := deadman - 1;
        if deadman == 0 {
          MarkersAreNew(table, outer, todo);
          return out, false;
        }
        TodoGoesOn(table, outer, line, DEADMAN_LIMIT - deadman - 1, todo);
        var word;
        todo, word := Step(todo, outer);
        out := out + word;
      }
    }

    /** One turn of the loop. A flag is set exactly when it was set before the line or its end marker is pending. */
    method Step(todo: seq<Token>, ghost outer: set<nat>) returns (next: seq<Token>, word: seq<string>)
      requires Pending(table, outer, todo) && todo != [] && flags == outer + Markers(todo)
      modifies this
      ensures Pending(table, outer, next) && flags == outer + Markers(next) && next == Turn(table, outer, todo)
      ensures word + Rest(table, outer, next) == Rest(table, outer, todo)
      ensures StepsLeft(table, outer, next) == StepsLeft(table, outer, todo) - 1
    {
      var head := todo[0];
      var call := if head.Ordinary? then Lookup(table, head.text) else None;
      if call.Some? && table[call.value].stored == [] {
        EmptyCallStep(table, outer, todo);
        next, word := todo[1..], [];
      } else if call.Some? && call.value !in flags {
        next := PushBody(head.text, call.value, [MacroEnd(call.value)] + todo[1..]);
        CallStep(table, outer, todo, call.value, next);
        flags := flags + {call.value};
        word := [];
      } else if head.MacroEnd? {
        EndStep(table, outer, todo);
        flags := flags - {head.mac};
        next, word := todo[1..], [];
      } else {
        PlainStep(table, outer, todo);
        next, word := todo[1..], [head.text];
      }
    }

    /** Pushes the stored tokens one by one on the front of the list, which undoes their stored order. */
    method PushBody(called: string, mac: nat, tail: seq<Token>) returns (todo: seq<Token>)
      requires mac < |table|
      ensures todo == Ordinaries(Body(table[mac], called)) + tail
    {
      hide PieceText;
      var m := table[mac];
      todo := tail;
      assert m.stored[..0] == [];
      for k := 0 to |m.stored|
        invariant todo == Ordinaries(Body(m, called, m.stored[..k])) + tail
      {
        todo := [Ordinary(PieceText(m, called, m.stored[k]))] + todo;
        assert m.stored[..k + 1] == m.stored[..k] + [m.stored[k]];
        assert Body(m, called, m.stored[..k + 1])
          == [PieceText(m, called, m.stored[k])] + Body(m, called, m.stored[..k]);
      }
      assert m.stored[..|m.stored|] == m.stored;
    }
  }

  // ---------- A flag that stays set ----------

  /** One macro, whose body calls no macro. */
  predicate Flat(stored: seq<Piece>) {
    forall i :: 0 <= i < |stored| ==> stored[i].Literal? && stored[i].text != "m"
  }

  function OneMacro(stored: seq<Piece>): Table {
    [Macro("m", true, stored)]
  }

  lemma LookupInOne(stored: seq<Piece>, text: string)
    ensures Lookup(OneMacro(stored), text) == if text == "m" then Some(0) else None
  {
  }

  lemma {:induction false} BodyRunsOff(stored: seq<Piece>, turns: nat)
    requires Flat(stored) && stored != [] && 1 <= turns <= |stored| + 1
    ensures var body := Body(OneMacro(stored)[0], "m");
      TodoAfter(OneMacro(stored), {}, ["m"], turns) == Ordinaries(body[turns - 1..]) + [MacroEnd(0)]
  {
    hide TodoAfter, Turn, Body, Lookup;
    var table := OneMacro(stored);
    var body := Body(table[0], "m");
    if turns == 1 {
      CallRunsOff(stored);
    } else {
      BodyRunsOff(stored, turns - 1);
      var todo := Ordinaries(body[turns - 2..]) + [MacroEnd(0)];
      assert body[turns - 2..] == [body[turns - 2]] + body[turns - 1..];
      PlainRunsOff(stored, body[turns - 2], body[turns - 1..], todo);
      TodoGoesOn(table, {}, ["m"], turns - 1, todo);
    }
  }

  lemma CallRunsOff(stored: seq<Piece>)
    requires stored != []
    ensures TodoAfter(OneMacro(stored), {}, ["m"], 1) == Ordinaries(Body(OneMacro(stored)[0], "m")[0..]) + [MacroEnd(0)]
  {
    hide Lookup;
    var table, first := OneMacro(stored), Ordinaries(["m"]);
    assert TodoAfter(table, {}, ["m"], 0) == first == [Ordinary("m")];
    LookupInOne(stored, "m");
    var body := Body(table[0], "m");
    assert first[1..] == [] && [MacroEnd(0)] + [] == [MacroEnd(0)] && body[0..] == body;
  }

  lemma PlainRunsOff(stored: seq<Piece>, word: string, rest: seq<string>, todo: seq<Token>)
    requires word != "m" && todo == Ordinaries([word] + rest) + [MacroEnd(0)]
    ensures Turn(OneMacro(stored), {}, todo) == Ordinaries(rest) + [MacroEnd(0)]
  {
    hide Lookup;
    LookupInOne(stored, word);
    assert todo[0] == Ordinary(word);
    assert todo[1..] == Ordinaries(rest) + [MacroEnd(0)];
  }

  lemma {:induction false} FlatSteps(stored: seq<Piece>, line: seq<string>, hidden: set<nat>)
    requires Indices(OneMacro(stored), hidden) && forall i :: 0 <= i < |line| ==> line[i] != "m"
    ensures Steps(OneMacro(stored), hidden, line) == |line|
  {
    if line != [] {
      LookupInOne(stored, line[0]);
      FlatSteps(stored, line[1..], hidden);
    }
  }

  /** A body of 2^20 - 2 tokens or more: the limit strikes inside it, and the macro's flag is set from then on. */
  lemma LongBody(stored: seq<Piece>)
    requires Flat(stored) && |stored| >= 0xF_FFFE
    ensures Steps(OneMacro(stored), {}, ["m"]) == |stored| + 2
    ensures Markers(TodoAfter(OneMacro(stored), {}, ["m"], 0xF_FFFF)) == {0}
    ensures Indices(OneMacro(stored), {0}) && Steps(OneMacro(stored), {0}, ["m"]) == 1
    ensures Substitute(OneMacro(stored), {0}, ["m"]) == ["m"]
  {
    hide Steps, TodoAfter, Substitute, Markers;
    FlatCall(stored);
    HiddenCall(stored);
    var turns, body := 0xF_FFFF, Body(OneMacro(stored)[0], "m");
    BodyRunsOff(stored, turns);
    MarkerLast(body[turns - 1..]);
  }

  lemma MarkerLast(line: seq<string>)
    ensures Markers(Ordinaries(line) + [MacroEnd(0)]) == {0}
  {
  }

  lemma FlatCall(stored: seq<Piece>)
    requires Flat(stored) && stored != []
    ensures Steps(OneMacro(stored), {}, ["m"]) == |stored| + 2
  {
    var table, none: set<nat> := OneMacro(stored), {};
    LookupInOne(stored, "m");
    assert none + {0} == {0};
    FlatSteps(stored, Body(table[0], "m"), {0});
    hide Lookup, Body;
    assert ["m"][1..] == [] && Steps(table, none, []) == 0;
  }

  lemma HiddenCall(stored: seq<Piece>)
    requires stored != []
    ensures Indices(OneMacro(stored), {0}) && Steps(OneMacro(stored), {0}, ["m"]) == 1
    ensures Substitute(OneMacro(stored), {0}, ["m"]) == ["m"]
  {
    hide Lookup, Body;
    LookupInOne(stored, "m");
    var table := OneMacro(stored);
    assert ["m"][1..] == [] && Steps(table, {0}, []) == 0 && Substitute(table, {0}, []) == [];
  }

  /** Then the macro is not expanded in the next line either. */
  method FlagOutlivesTheLine(stored: seq<Piece>) returns (ok: bool, next: seq<string>)
    requires Flat(stored) && |stored| >= 0xF_FFFE
    ensures !ok && next == ["m"]
  {
    hide TodoAfter, Markers, Rest, Pending, Substitute, Steps;
    LongBody(stored);
    var e := new Expander(OneMacro(stored));
    var out;
    out, ok := e.Expand(["m"]);
    assert e.flags == {0};
    var fine;
    next, fine := e.Expand(["m"]);
  }

  // ---------- How long a line can take ----------

  /** Steps for one token when `room` macros are not in progress and no body is longer than `longest`. */
  ghost function WorstSteps(room: nat, longest: nat): (n: nat)
    ensures n > 0
  {
    if room == 0 then 1 else 2 + longest * WorstSteps(room - 1, longest)
  }

  lemma OneMoreToken(n: nat, w: nat)
    requires n > 0
    ensures n * w == w + (n - 1) * w
  {
  }

  lemma Scaled(a: nat, b: nat, w: nat)
    requires a <= b
    ensures a * w <= b * w
  {
  }

  lemma {:induction false} StepsBound(table: Table, hidden: set<nat>, line: seq<string>, longest: nat)
    requires Indices(table, hidden)
    requires forall m | m in table :: |m.stored| <= longest
    ensures Steps(table, hidden, line) <= |line| * WorstSteps(Room(table, hidden), longest)
    decreases Room(table, hidden), |line|
  {
    if line != [] {
      var worst := WorstSteps(Room(table, hidden), longest);
      StepsBound(table, hidden, line[1..], longest);
      StepsOneBound(table, hidden, line[0], longest);
      OneMoreToken(|line|, worst);
    }
  }

  lemma {:induction false} StepsOneBound(table: Table, hidden: set<nat>, text: string, longest: nat)
    requires Indices(table, hidden)
    requires forall m | m in table :: |m.stored| <= longest
    ensures StepsOne(table, hidden, text) <= WorstSteps(Room(table, hidden), longest)
    decreases Room(table, hidden), 0
  {
    hide Steps, StepsOne, WorstSteps;
    var call := Call(table, hidden, text);
    if call.Some? && table[call.value].stored != [] {
      var inner, body := hidden + {call.value}, Body(table[call.value], text);
      StepsOfCall(table, hidden, text, call.value);
      StepsBound(table, inner, body, longest);
      assert |body| <= longest by {
        assert table[call.value] in table;
      }
      Scaled(|body|, longest, WorstSteps(Room(table, inner), longest));
      WorstStep(Room(table, inner), longest);
    } else {
      OneStep(table, hidden, text);
    }
  }

  lemma StepsOfCall(table: Table, hidden: set<nat>, text: string, i: nat)
    requires Indices(table, hidden) && Call(table, hidden, text) == Some(i) && table[i].stored != []
    ensures Indices(table, hidden + {i}) && Room(table, hidden) == Room(table, hidden + {i}) + 1
    ensures StepsOne(table, hidden, text) == 2 + Steps(table, hidden + {i}, Body(table[i], text))
  {
    IndicesBound(table, hidden + {i});
  }

  lemma OneStep(table: Table, hidden: set<nat>, text: string)
    requires Indices(table, hidden)
    requires var call := Call(table, hidden, text); call.None? || table[call.value].stored == []
    ensures StepsOne(table, hidden, text) == 1
  {
  }

  lemma WorstStep(room: nat, longest: nat)
    ensures WorstSteps(room + 1, longest) == 2 + longest * WorstSteps(room, longest)
  {
  }

  // ---------- Which macro names survive ----------

  ghost predicate Calls(table: Table, i: nat, j: nat) {
    exists called: string, t: string :: CallsVia(table, i, called, t, j)
  }

  ghost predicate CallsVia(table: Table, i: nat, called: string, t: string, j: nat) {
    && Lookup(table, called) == Some(i)
    && t in Body(table[i], called)
    && Lookup(table, t) == Some(j)
  }

  ghost predicate Path(table: Table, p: seq<nat>) {
    |p| >= 2 && forall k :: 0 <= k < |p| - 1 ==> Calls(table, p[k], p[k + 1])
  }

  /** Macro `j` can come up while macro `i` is being expanded. */
  ghost predicate Reaches(table: Table, i: nat, j: nat) {
    exists p :: Path(table, p) && p[0] == i && p[|p| - 1] == j
  }

  lemma ReachesOne(table: Table, i: nat, j: nat)
    requires Calls(table, i, j)
    ensures Reaches(table, i, j)
  {
    assert Path(table, [i, j]);
  }

  lemma ReachesMore(table: Table, i: nat, j: nat, k: nat)
    requires Reaches(table, i, j) && Calls(table, j, k)
    ensures Reaches(table, i, k)
  {
    var p :| Path(table, p) && p[0] == i && p[|p| - 1] == j;
    var q := p + [k];
    forall n | 0 <= n < |q| - 1
      ensures Calls(table, q[n], q[n + 1])
    {
      if n < |p| - 1 {
        assert q[n] == p[n] && q[n + 1] == p[n + 1];
      }
    }
    assert Path(table, q);
  }

  ghost predicate ReachedBy(table: Table, chain: set<nat>, line: seq<string>) {
    forall h, t :: h in chain && t in line && Lookup(table, t).Some? ==> Reaches(table, h, Lookup(table, t).value)
  }

  /** A macro name is left in the result only if it was hidden to begin with or its macro can reach itself. */
  lemma {:induction false} Survivors(table: Table, outer: set<nat>, chain: set<nat>, line: seq<string>, word: string)
    requires Indices(table, outer + chain) && ReachedBy(table, chain, line)
    requires word in Substitute(table, outer + chain, line) && Lookup(table, word).Some?
    ensures var j := Lookup(table, word).value; j in outer || Reaches(table, j, j)
    decreases Room(table, outer + chain), |line|
  {
    if word in SubstituteOne(table, outer + chain, line[0]) {
      var text := line[0];
      var call := Call(table, outer + chain, text);
      if call.Some? {
        var i := call.value;
        var body := Body(table[i], text);
        forall h, t | h in chain + {i} && t in body && Lookup(table, t).Some?
          ensures Reaches(table, h, Lookup(table, t).value)
        {
          assert CallsVia(table, i, text, t, Lookup(table, t).value);
          if h == i {
            ReachesOne(table, i, Lookup(table, t).value);
          } else {
            ReachesMore(table, h, i, Lookup(table, t).value);
          }
        }
        assert outer + (chain + {i}) == outer + chain + {i};
        IndicesBound(table, outer + chain + {i});
        Survivors(table, outer, chain + {i}, body, word);
      }
    } else {
      Survivors(table, outer, chain, line[1..], word);
    }
  }

  /** Without circular definitions one expansion leaves no macro name, and a second one changes nothing. */
  lemma AcyclicExpansionIsComplete(table: Table, line: seq<string>)
    requires forall j :: !Reaches(table, j, j)
    ensures forall word | word in Substitute(table, {}, line) :: Lookup(table, word).None?
    ensures Substitute(table, {}, Substitute(table, {}, line)) == Substitute(table, {}, line)
  {
    forall word | word in Substitute(table, {}, line)
      ensures Lookup(table, word).None?
    {
      if Lookup(table, word).Some? {
        var none: set<nat> := {};
        assert none + none == none;
        Survivors(table, {}, {}, line, word);
      }
    }
    NothingToExpand(table, {}, Substitute(table, {}, line));
  }

  lemma {:induction false} NothingToExpand(table: Table, hidden: set<nat>, line: seq<string>)
    requires Indices(table, hidden)
    requires forall word | word in line :: Lookup(table, word).None?
    ensures Substitute(table, hidden, line) == line
  {
    if line != [] {
      NothingToExpand(table, hidden, line[1..]);
      assert line == [line[0]] + line[1..];
    }
  }
}
