/**
 Which words call a single-line macro, and what `%?` and `%??` stand for (asm/aasm-prep.cpp, expand_smacro and
 mstrcmp), stated of the words and of the lines that come out.
 */
module MacroNames {
  import opened Common
  import opened SingleLineMacros

  // ---------- Which words call a macro ----------

  lemma FoldMeans(c: char, d: char)
    ensures Fold(c) == Fold(d) <==> SameLetter(c, d)
  {
    SameLetterByCode(c, d);
  }

  /** A case-sensitive macro is called by its own name only, any other by its name in every case. */
  lemma MatchesMeans(m: Macro, word: string)
    ensures Matches(m, word) <==> if m.caseSensitive then word == m.name else Recased(m.name, word)
  {
    if |m.name| == |word| {
      forall i | 0 <= i < |word|
        ensures Fold(m.name[i]) == Fold(word[i]) <==> SameLetter(m.name[i], word[i])
      {
        FoldMeans(m.name[i], word[i]);
      }
    }
  }

  /** Lookup finds the first macro that the word calls. */
  lemma LookupMeans(table: Table, word: string)
    ensures var l := Lookup(table, word);
      match l
      case None => forall i :: 0 <= i < |table| ==> !IsCalledBy(table[i], word)
      case Some(k) =>
        k < |table| && IsCalledBy(table[k], word) && forall i :: 0 <= i < k ==> !IsCalledBy(table[i], word)
  {
    forall i: nat | i < |table|
      ensures Matches(table[i], word) == IsCalledBy(table[i], word)
    {
      MatchesMeans(table[i], word);
    }
  }

  ghost predicate IsCalledBy(m: Macro, word: string) {
    if m.caseSensitive then word == m.name else Recased(m.name, word)
  }

  // ---------- Changing the case of words ----------

  /** Two words that differ in case at most, and not if one is the name of a case-sensitive macro. */
  ghost predicate Alike(table: Table, v: string, w: string) {
    v == w || (Recased(v, w) && forall m :: m in table && m.caseSensitive ==> m.name != v && m.name != w)
  }

  ghost predicate AlikeLines(table: Table, v: seq<string>, w: seq<string>) {
    |v| == |w| && forall i :: 0 <= i < |v| ==> Alike(table, v[i], w[i])
  }

  lemma FoldedAlike(v: string, w: string)
    ensures SameIgnoringCase(v, w) <==> Recased(v, w)
  {
    MatchesMeans(Macro(v, false, []), w);
  }

  lemma {:induction false} AlikeLookup(table: Table, v: string, w: string, from: nat)
    requires Alike(table, v, w)
    ensures Lookup(table, v, from) == Lookup(table, w, from)
    decreases |table| - from
  {
    if from < |table| {
      FoldedAlike(v, w);
      assert table[from] in table;
      AlikeLookup(table, v, w, from + 1);
    }
  }

  lemma AlikeBodies(table: Table, m: Macro, v: string, w: string)
    requires Alike(table, v, w)
    ensures AlikeLines(table, Body(m, v), Body(m, w))
    ensures AsCalled !in m.stored ==> Body(m, v) == Body(m, w)
  {
    hide Alike;
    forall i | 0 <= i < |m.stored|
      ensures Alike(table, Body(m, v)[i], Body(m, w)[i])
      ensures AsCalled !in m.stored ==> Body(m, v)[i] == Body(m, w)[i]
    {
      var p := m.stored[|m.stored| - 1 - i];
      assert p in m.stored;
      AlikeItself(table, PieceText(m, v, p));
    }
  }

  lemma AlikeItself(table: Table, v: string)
    ensures Alike(table, v, v)
  {
  }

  /** Such words in a line leave its expansion as long as it was, its words alike, and the turns it takes the same. */
  lemma {:induction false} CaseDoesNotMatter(table: Table, hidden: set<nat>, v: seq<string>, w: seq<string>)
    requires Indices(table, hidden) && AlikeLines(table, v, w)
    ensures AlikeLines(table, Substitute(table, hidden, v), Substitute(table, hidden, w))
    ensures Steps(table, hidden, v) == Steps(table, hidden, w)
    decreases Room(table, hidden), |v|
  {
    hide Alike, Room, Indices, Substitute, SubstituteOne, Steps, StepsOne;
    if v == [] {
      NothingLeft(table, hidden);
    } else {
      FirstOfLine(table, hidden, v);
      FirstOfLine(table, hidden, w);
      CaseOfWord(table, hidden, v[0], w[0]);
      CaseDoesNotMatter(table, hidden, v[1..], w[1..]);
    }
  }

  lemma {:induction false} CaseOfWord(table: Table, hidden: set<nat>, v: string, w: string)
    requires Indices(table, hidden) && Alike(table, v, w)
    ensures AlikeLines(table, SubstituteOne(table, hidden, v), SubstituteOne(table, hidden, w))
    ensures StepsOne(table, hidden, v) == StepsOne(table, hidden, w)
    decreases Room(table, hidden), 0
  {
    hide Alike, Substitute, Steps, Lookup;
    AlikeLookup(table, v, w, 0);
    var call := Call(table, hidden, v);
    if call.Some? && table[call.value].stored != [] {
      AlikeBodies(table, table[call.value], v, w);
      CaseDoesNotMatter(table, hidden + {call.value}, Body(table[call.value], v), Body(table[call.value], w));
    }
  }

  /** And a call of a macro without `%?` gives exactly the same words. */
  lemma CaseOfCall(table: Table, hidden: set<nat>, v: string, w: string)
    requires Indices(table, hidden) && Alike(table, v, w)
    requires Call(table, hidden, v).Some? && AsCalled !in table[Call(table, hidden, v).value].stored
    ensures SubstituteOne(table, hidden, v) == SubstituteOne(table, hidden, w)
  {
    hide Alike, Substitute, Lookup;
    AlikeLookup(table, v, w, 0);
    AlikeBodies(table, table[Call(table, hidden, v).value], v, w);
  }

  // ---------- The name as called and as defined ----------

  lemma {:induction false} Inert(table: Table, hidden: set<nat>, line: seq<string>)
    requires Indices(table, hidden) && forall i :: 0 <= i < |line| ==> Call(table, hidden, line[i]).None?
    ensures Substitute(table, hidden, line) == line
  {
    if line != [] {
      Inert(table, hidden, line[1..]);
    }
  }

  /** A piece of a body calls nothing while macro `i` is hidden. */
  ghost predicate CallsNothing(table: Table, hidden: set<nat>, i: nat, p: Piece)
    requires i < |table|
  {
    match p
    case Literal(t) => Call(table, hidden, t).None?
    case AsDefined => Call(table, hidden, table[i].name).None?
    case AsCalled => true
  }

  /**
   A word that calls a macro whose body calls no other comes out as the body in the order in which it was
   defined: literals as they are, `%?` as the word itself, `%??` as the name in its definition.
   */
  lemma CallGives(table: Table, hidden: set<nat>, word: string, i: nat)
    requires Indices(table, hidden) && Call(table, hidden, word) == Some(i)
    requires forall p :: p in table[i].stored ==> CallsNothing(table, hidden + {i}, i, p)
    ensures var out, n := SubstituteOne(table, hidden, word), |table[i].stored|;
      |out| == n && forall k :: 0 <= k < n ==>
        match table[i].stored[n - 1 - k]
        case Literal(t) => out[k] == t
        case AsCalled => out[k] == word
        case AsDefined => out[k] == table[i].name
  {
    hide Lookup, Substitute;
    var m := table[i];
    if m.stored != [] {
      var body := Body(m, word);
      forall k | 0 <= k < |body|
        ensures Call(table, hidden + {i}, body[k]).None?
      {
        var p := m.stored[|m.stored| - 1 - k];
        assert p in m.stored && CallsNothing(table, hidden + {i}, i, p);
      }
      Inert(table, hidden + {i}, body);
    }
  }

  /** BUFSIZE defined without regard to case is 64 as bufsize too, and defined with regard to it only as BUFSIZE. */
  lemma BufferSize()
    ensures Substitute([Macro("BUFSIZE", false, [Literal("64")])], {}, ["bufsize"]) == ["64"]
    ensures Substitute([Macro("BUFSIZE", true, [Literal("64")])], {}, ["bufsize"]) == ["bufsize"]
    ensures Substitute([Macro("BUFSIZE", true, [Literal("64")])], {}, ["BUFSIZE"]) == ["64"]
  {
    hide Substitute, SubstituteOne, Lookup;
    BufferSizeCalled(false, "bufsize");
    BufferSizeCalled(true, "BUFSIZE");
    BufferSizeCalled(true, "bufsize");
  }

  lemma BufferSizeCalled(caseSensitive: bool, word: string)
    requires word == "BUFSIZE" || word == "bufsize"
    ensures Substitute([Macro("BUFSIZE", caseSensitive, [Literal("64")])], {}, [word])
         == if caseSensitive && word == "bufsize" then [word] else ["64"]
  {
    hide Lookup, Substitute, Recased;
    var table, none: set<nat> := [Macro("BUFSIZE", caseSensitive, [Literal("64")])], {};
    RecasedBufferSize();
    LookupMeans(table, word);
    LookupMeans(table, "64");
    if caseSensitive && word == "bufsize" {
      Inert(table, none, [word]);
    } else {
      CallGives(table, none, word, 0);
      assert SubstituteOne(table, none, word) == ["64"];
      FirstOfLine(table, none, [word]);
      NothingLeft(table, none);
      assert [word][1..] == [] && ["64"] + [] == ["64"];
    }
  }

  lemma RecasedBufferSize()
    ensures Recased("BUFSIZE", "bufsize") && Recased("BUFSIZE", "BUFSIZE") && !Recased("BUFSIZE", "64")
  {
    FoldedAlike("BUFSIZE", "bufsize");
  }
}
