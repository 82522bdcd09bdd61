/**
 The iterative N-queens backtracker (demo/algorithm/algo-chess-queen.cpp).

 A board lists the columns of the queens, row by row, counted from 1; the source's state array keeps
 it in slots 1 to size. The chain of results is compared with a recursive listing, which is shown to
 contain exactly the placements without attack, in lexicographic order.
 */
module Queens {
  import opened Common

  type Board = seq<nat>

  // ---------- Placements ----------

  predicate Attacks(rowA: nat, colA: nat, rowB: nat, colB: nat) {
    colA == colB || Distance(colA, colB) == Distance(rowA, rowB)
  }

  /** A queen in column `col` of the next row is attacked by none of `board`. */
  predicate Safe(board: Board, col: nat) {
    forall n :: 0 <= n < |board| ==> !Attacks(|board|, col, n, board[n])
  }

  /** Rows of queens within the columns, none attacking another. */
  predicate Peaceful(size: nat, board: Board) {
    && (forall n :: 0 <= n < |board| ==> 1 <= board[n] <= size)
    && (forall m, n :: 0 <= m < n < |board| ==> !Attacks(n, board[n], m, board[m]))
  }

  predicate IsSolution(size: nat, board: Board) {
    |board| == size && Peaceful(size, board)
  }

  lemma PeacefulExtended(size: nat, board: Board, col: nat)
    requires Peaceful(size, board)
    ensures Peaceful(size, board + [col]) <==> 1 <= col <= size && Safe(board, col)
  {
    var b := board + [col];
    if Peaceful(size, b) {
      assert b[|board|] == col;
      forall n | 0 <= n < |board|
        ensures !Attacks(|board|, col, n, board[n])
      {
        assert b[n] == board[n];
      }
    }
  }

  // ---------- The listing ----------

  /** The solutions that begin with `prefix` and go on with a column from `col` on, in order. */
  function Listing(size: nat, prefix: Board, col: nat): seq<Board>
    requires |prefix| < size
    decreases size - |prefix|, size + 1 - col
  {
    if col > size then []
    else (if Safe(prefix, col) then Deeper(size, prefix + [col]) else []) + Listing(size, prefix, col + 1)
  }

  function Deeper(size: nat, board: Board): seq<Board>
    requires |board| <= size
    decreases size - |board|, size + 2
  {
    if |board| == size then [board] else Listing(size, board, 1)
  }

  predicate Extends(b: Board, prefix: Board) {
    |prefix| <= |b| && b[..|prefix|] == prefix
  }

  /** The listing has exactly the solutions it should have. */
  lemma {:induction false} ListingExact(size: nat, prefix: Board, col: nat, b: Board)
    requires |prefix| < size && Peaceful(size, prefix) && 1 <= col
    ensures b in Listing(size, prefix, col) <==> IsSolution(size, b) && Extends(b, prefix) && b[|prefix|] >= col
    decreases size - |prefix|, size + 1 - col
  {
    if col <= size {
      ListingExact(size, prefix, col + 1, b);
      PeacefulExtended(size, prefix, col);
      if Safe(prefix, col) {
        DeeperExact(size, prefix + [col], b);
      }
      ExtendsByOne(size, prefix, col, b);
    }
  }

  lemma {:induction false} DeeperExact(size: nat, board: Board, b: Board)
    requires |board| <= size && Peaceful(size, board)
    ensures b in Deeper(size, board) <==> IsSolution(size, b) && Extends(b, board)
    decreases size - |board|, size + 2
  {
    if |board| == size {
      assert Extends(b, board) && |b| == size ==> b == board;
    } else {
      ListingExact(size, board, 1, b);
    }
  }

  lemma ExtendsByOne(size: nat, prefix: Board, col: nat, b: Board)
    requires |prefix| < size && Peaceful(size, prefix)
    ensures IsSolution(size, b) && Extends(b, prefix) && b[|prefix|] == col
      ==> Safe(prefix, col) && Extends(b, prefix + [col])
    ensures |b| == size && Extends(b, prefix + [col]) ==> Extends(b, prefix) && b[|prefix|] == col
  {
    if |b| == size && b[|prefix|] == col && Extends(b, prefix) {
      assert b[..|prefix| + 1] == prefix + [col];
      forall n | 0 <= n < |prefix| && Peaceful(size, b)
        ensures !Attacks(|prefix|, col, n, prefix[n])
      {
        assert b[..|prefix|][n] == b[n];
      }
    }
    if |b| == size && Extends(b, prefix + [col]) {
      assert b[..|prefix|] == b[..|prefix| + 1][..|prefix|] == prefix;
      assert b[|prefix|] == b[..|prefix| + 1][|prefix|];
    }
  }

  /** Lexicographic order. */
  ghost predicate Before(a: Board, b: Board) {
    exists k :: FirstDifference(a, b, k)
  }

  ghost predicate FirstDifference(a: Board, b: Board, k: nat) {
    k < |a| && k < |b| && a[..k] == b[..k] && a[k] < b[k]
  }

  ghost predicate Ordered(s: seq<Board>) {
    forall i, j :: 0 <= i < j < |s| ==> Before(s[i], s[j])
  }

  lemma {:induction false} ListingOrdered(size: nat, prefix: Board, col: nat)
    requires |prefix| < size && Peaceful(size, prefix) && 1 <= col
    ensures Ordered(Listing(size, prefix, col))
    decreases size - |prefix|, size + 1 - col
  {
    if col <= size {
      ListingOrdered(size, prefix, col + 1);
      PeacefulExtended(size, prefix, col);
      if Safe(prefix, col) {
        var first := Deeper(size, prefix + [col]);
        if |prefix| + 1 < size {
          ListingOrdered(size, prefix + [col], 1);
        }
        FirstBeforeRest(size, prefix, col);
        OrderedConcat(first, Listing(size, prefix, col + 1));
      }
    }
  }

  lemma FirstBeforeRest(size: nat, prefix: Board, col: nat)
    requires |prefix| < size && Peaceful(size, prefix) && 1 <= col <= size && Safe(prefix, col)
    ensures forall a, b :: a in Deeper(size, prefix + [col]) && b in Listing(size, prefix, col + 1) ==> Before(a, b)
  {
    PeacefulExtended(size, prefix, col);
    forall a, b | a in Deeper(size, prefix + [col]) && b in Listing(size, prefix, col + 1)
      ensures Before(a, b)
    {
      DeeperExact(size, prefix + [col], a);
      ListingExact(size, prefix, col + 1, b);
      ExtendsByOne(size, prefix, col, a);
      assert FirstDifference(a, b, |prefix|);
    }
  }

  lemma OrderedConcat(s: seq<Board>, t: seq<Board>)
    requires Ordered(s) && Ordered(t)
    requires forall a, b :: a in s && b in t ==> Before(a, b)
    ensures Ordered(s + t)
  {
    var u := s + t;
    forall i, j | 0 <= i < j < |u|
      ensures Before(u[i], u[j])
    {
      if i < |s| && j >= |s| {
        assert u[i] in s && u[j] in t;
      }
    }
  }

  // ---------- What the backtracker still has to do ----------

  /** What is listed after the boards that begin with `prefix`. */
  function Later(size: nat, prefix: Board): seq<Board>
    requires |prefix| <= size
  {
    if prefix == [] then []
    else
      var m := |prefix| - 1;
      Listing(size, prefix[..m], prefix[m] + 1) + Later(size, prefix[..m])
  }

  /** Turns of the main loop below `prefix`, from column `col` on, up to the step back. */
  function Turns(size: nat, prefix: Board, col: nat): nat
    requires |prefix| < size
    decreases size - |prefix|, size + 1 - col
  {
    if col > size then 1
    else
      1 + (if Safe(prefix, col) && |prefix| + 1 < size then Turns(size, prefix + [col], 1) else 0)
      + Turns(size, prefix, col + 1)
  }

  function LaterTurns(size: nat, prefix: Board): nat
    requires |prefix| <= size
  {
    if prefix == [] then 0
    else
      var m := |prefix| - 1;
      Turns(size, prefix[..m], prefix[m] + 1) + LaterTurns(size, prefix[..m])
  }

  lemma LaterExtended(size: nat, prefix: Board, col: nat)
    requires |prefix| < size
    ensures Later(size, prefix + [col]) == Listing(size, prefix, col + 1) + Later(size, prefix)
    ensures LaterTurns(size, prefix + [col]) == Turns(size, prefix, col + 1) + LaterTurns(size, prefix)
  {
    assert (prefix + [col])[..|prefix|] == prefix;
  }

  /** Everything: what has been found, what is left below `prefix` and what comes after it. */
  function All(size: nat, chain: seq<Board>, prefix: Board, col: nat): seq<Board>
    requires |prefix| < size
  {
    chain + (Listing(size, prefix, col) + Later(size, prefix))
  }

  function AllTurns(size: nat, prefix: Board, col: nat): nat
    requires |prefix| < size
  {
    Turns(size, prefix, col) + LaterTurns(size, prefix)
  }

  lemma StepBack(size: nat, chain: seq<Board>, prefix: Board, col: nat)
    requires |prefix| < size && col > size
    ensures prefix == [] ==> All(size, chain, prefix, col) == chain
    ensures prefix != [] ==>
      var m := |prefix| - 1;
      && All(size, chain, prefix, col) == All(size, chain, prefix[..m], prefix[m] + 1)
      && AllTurns(size, prefix, col) == 1 + AllTurns(size, prefix[..m], prefix[m] + 1)
  {
    assert Listing(size, prefix, col) == [];
    assert [] + Later(size, prefix) == Later(size, prefix);
  }

  lemma StepOver(size: nat, chain: seq<Board>, prefix: Board, col: nat)
    requires |prefix| < size && col <= size && !Safe(prefix, col)
    ensures All(size, chain, prefix, col) == All(size, chain, prefix, col + 1)
    ensures AllTurns(size, prefix, col) == 1 + AllTurns(size, prefix, col + 1)
  {
    var rest := Listing(size, prefix, col + 1);
    assert Listing(size, prefix, col) == [] + rest == rest;
  }

  lemma StepFound(size: nat, chain: seq<Board>, prefix: Board, col: nat)
    requires |prefix| + 1 == size && col <= size && Safe(prefix, col)
    ensures All(size, chain, prefix, col) == All(size, chain + [prefix + [col]], prefix, col + 1)
    ensures AllTurns(size, prefix, col) == 1 + AllTurns(size, prefix, col + 1)
  {
    var one, rest, later := [prefix + [col]], Listing(size, prefix, col + 1), Later(size, prefix);
    assert Deeper(size, prefix + [col]) == one;
    assert Listing(size, prefix, col) == one + rest;
    assert chain + ((one + rest) + later) == (chain + one) + (rest + later);
  }

  lemma ListingStep(size: nat, prefix: Board, col: nat)
    requires |prefix| + 1 < size && col <= size && Safe(prefix, col)
    ensures Listing(size, prefix, col) == Listing(size, prefix + [col], 1) + Listing(size, prefix, col + 1)
    ensures Turns(size, prefix, col) == 1 + Turns(size, prefix + [col], 1) + Turns(size, prefix, col + 1)
  {
  }

  lemma StepDown(size: nat, chain: seq<Board>, prefix: Board, col: nat)
    requires |prefix| + 1 < size && col <= size && Safe(prefix, col)
    ensures All(size, chain, prefix, col) == All(size, chain, prefix + [col], 1)
    ensures AllTurns(size, prefix, col) == 1 + AllTurns(size, prefix + [col], 1)
  {
    hide Listing, Later, Turns, LaterTurns;
    LaterExtended(size, prefix, col);
    ListingStep(size, prefix, col);
    var a, b, c := Listing(size, prefix + [col], 1), Listing(size, prefix, col + 1), Later(size, prefix);
    assert (a + b) + c == a + (b + c);
  }

  // ---------- The loops ----------

  /** `NQueenMatch`: the queen in slot `index` against those before it, nearest first. */
  method Match(state: array<nat>, index: nat) returns (ok: bool)
    requires 1 <= index < state.Length
    ensures ok <==> Safe(state[1..index], state[index])
  {
    var n := index - 1;
    while n > 0
      invariant 0 <= n < index
      invariant forall k :: n < k < index ==> !Attacks(index, state[index], k, state[k])
    {
      if state[index] == state[n] || Distance(state[index], state[n]) == Distance(index, n) {
        assert state[1..index][n - 1] == state[n];
        return false;
      }
      n := n - 1;
    }
    return true;
  }

  /** `NQueen`: all solutions, in order, or false for a size up to 3. */
  method NQueen(size: nat) returns (ok: bool, chain: seq<Board>)
    ensures ok <==> size > 3
    ensures ok ==> chain == Listing(size, [], 1)
    ensures !ok ==> chain == []
  {
    chain := [];
    if size <= 3 {
      return false, [];
    }
    var state := new nat[size + 1](_ => 0);
    var i, j := 1, 1;
    ghost var goal := Listing(size, [], 1);
    ghost var prefix: Board := [];
    assert All(size, [], [], 1) == goal;
    while i > 0
      invariant 0 <= i <= size && 1 <= j
      invariant i > 0 ==> prefix == state[1..i]
      invariant if i > 0 then All(size, chain, prefix, j) == goal else chain == goal
      decreases if i > 0 then AllTurns(size, prefix, j) else 0
    {
      if j > size {
        StepBack(size, chain, prefix, j);
        i := i - 1;
        if i > 0 {
          j := state[i] + 1;
          prefix := prefix[..|prefix| - 1];
        }
      } else {
        state[i] := j;
        assert prefix == state[1..i];
        i, j, chain, prefix := Try(size, state, i, chain, prefix);
      }
    }
    ok := true;
  }

  /** The turn that tries the queen in slot `i`. */
  method Try(size: nat, state: array<nat>, i: nat, chain: seq<Board>, ghost prefix: Board)
    returns (i': nat, j': nat, chain': seq<Board>, ghost prefix': Board)
    requires 1 <= i <= size && state.Length == size + 1 && prefix == state[1..i] && 1 <= state[i] <= size
    ensures 1 <= i' <= size && 1 <= j' && prefix' == state[1..i']
    ensures All(size, chain', prefix', j') == All(size, chain, prefix, state[i])
    ensures AllTurns(size, prefix, state[i]) == 1 + AllTurns(size, prefix', j')
  {
    hide All, AllTurns;
    var good := Match(state, i);
    i', chain', prefix' := i, chain, prefix;
    if good {
      i', j' := i + 1, 1;
      if i' > size {
        StepFound(size, chain, prefix, state[i]);
        assert state[1..] == prefix + [state[i]];
        chain' := chain + [state[1..]];
        i' := i' - 1;
        j' := state[i'] + 1;
      } else {
        StepDown(size, chain, prefix, state[i]);
        prefix' := prefix + [state[i]];
      }
    } else {
      StepOver(size, chain, prefix, state[i]);
      j' := state[i] + 1;
    }
  }

  /** The chain holds every solution once, in lexicographic order, and nothing else. */
  lemma ListingIsRight(size: nat, b: Board)
    requires size > 0
    ensures b in Listing(size, [], 1) <==> IsSolution(size, b)
    ensures Ordered(Listing(size, [], 1))
    ensures forall i, j :: 0 <= i < j < |Listing(size, [], 1)| ==> Listing(size, [], 1)[i] != Listing(size, [], 1)[j]
  {
    ListingExact(size, [], 1, b);
    ListingOrdered(size, [], 1);
  }
}
