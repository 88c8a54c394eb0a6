/** The search of backend/TicTacToeAi1.py: a negamax-style recursion over the
    extended pattern table with a transposition table that lives as long as
    the module (`transposition_table = {}` at module level) and is keyed by the
    whole board. The side to move swaps at every ply together with the
    perspective of `evaluate`. As in the source, the player `'o'` keeps the
    maximum of the negated child values and raises alpha, every other marker
    keeps the minimum and lowers beta. */
module Negamax {
  import opened ExtendedInt
  import opened Grid
  import opened Patterns
  import opened Evaluation
  import opened Deadline
  import opened Choice

  /** The `max_depth` that `get_move` leaves at its default. */
  const DefaultMaxDepth: int := 5

  /** The static score of this search: `evaluate` with the extended table. */
  function StaticScore(g: seq<seq<char>>, n: nat, p: char, o: char): int
    requires IsGrid(g, n)
  {
    Score(g, n, Extended, p, o)
  }

  /** `abs(score) == 10000 or not available_moves or depth == 0`. */
  predicate Cutoff(g: seq<seq<char>>, n: nat, depth: int, p: char, o: char)
    requires IsGrid(g, n)
  {
    Abs(StaticScore(g, n, p, o)) == WinScore || AvailableMoves(g, n) == [] || depth == 0
  }

  /** Why the recursion ends: a non-negative depth counts down to the
      `depth == 0` cutoff. A negative one never reaches it; then, as long as
      one of the two markers is not blank, the measure below falls at every
      ply, because a non-blank mover fills an empty cell and a blank mover
      hands the move to a non-blank one, until no move is left. */
  ghost function SearchMeasure(g: seq<seq<char>>, n: nat, depth: int, p: char): nat
    requires IsGrid(g, n)
  {
    if depth >= 0 then depth else 2 * |EmptyCells(g, n)| + (if p == Empty then 1 else 0)
  }

  /** The static scores, from the mover's perspective, of the boards reached
      by playing each of `moves` for `p`, in order. */
  function MoveValues(g: seq<seq<char>>, n: nat, moves: seq<Move>, p: char, o: char): (values: seq<int>)
    requires IsGrid(g, n) && forall m :: m in moves ==> InBounds(m, n)
    ensures |values| == |moves|
  {
    if moves == [] then []
    else
      var init := moves[..|moves| - 1];
      assert forall m :: m in init ==> m in moves;
      MoveValues(g, n, init, p, o) + [StaticScore(Place(g, n, moves[|moves| - 1], p), n, p, o)]
  }

  /** The value at position `k` is the static score after the `k`-th move. */
  lemma {:induction false} MoveValuesAt(g: seq<seq<char>>, n: nat, moves: seq<Move>, p: char, o: char, k: nat)
    requires IsGrid(g, n) && forall m :: m in moves ==> InBounds(m, n)
    requires k < |moves|
    ensures MoveValues(g, n, moves, p, o)[k] == StaticScore(Place(g, n, moves[k], p), n, p, o)
    decreases |moves|
  {
    var init := moves[..|moves| - 1];
    assert forall m :: m in init ==> m in moves;
    if k < |moves| - 1 {
      MoveValuesAt(g, n, init, p, o, k);
      assert init[k] == moves[k];
    }
  }

  /** The values the root loop of `find_best_move` compares: since it calls
      `minimax` with depth 0, the static score after each available move. */
  function StaticValues(g: seq<seq<char>>, n: nat, p: char, o: char): (values: seq<int>)
    requires IsGrid(g, n)
    ensures |values| == |AvailableMoves(g, n)|
  {
    MoveValues(g, n, AvailableMoves(g, n), p, o)
  }

  /** `transposition_table`: board -> (depth searched, value found). */
  type TranspositionTable = map<seq<seq<char>>, (int, ExtInt)>

  /** Every stored value is finite and was stored by a search of non-zero
      depth, because a depth-0 call always returns before the store. */
  ghost predicate TableValid(t: TranspositionTable) {
    forall key :: key in t ==> t[key].1.Fin? && t[key].0 != 0
  }

  /** `board_tuple in transposition_table and transposition_table[board_tuple][0] >= depth` */
  predicate Reuses(t: TranspositionTable, key: seq<seq<char>>, depth: int) {
    key in t && t[key].0 >= depth
  }

  /** No entry can answer a depth-0 call. */
  ghost predicate NoDepthZeroEntry(t: TranspositionTable) {
    forall key :: key in t ==> t[key].0 < 0
  }

  /** What a depth-0 `minimax` call returns for the board `key` under the
      table `t`: a reusable entry's value, otherwise the static score, which a
      depth-0 call reaches whatever the clock answers. */
  ghost function DepthZeroValue(t: TranspositionTable, key: seq<seq<char>>, n: nat, p: char, o: char): int
    requires TableValid(t) && IsGrid(key, n)
  {
    if Reuses(t, key, 0) then t[key].1.value else StaticScore(key, n, p, o)
  }

  /** What the root loop of `find_best_move` gets for each of `moves`,
      played for `p`, in order. */
  ghost function DepthZeroValues(t: TranspositionTable, g: seq<seq<char>>, n: nat, moves: seq<Move>, p: char, o: char): (values: seq<int>)
    requires TableValid(t) && IsGrid(g, n) && forall m :: m in moves ==> InBounds(m, n)
    ensures |values| == |moves|
  {
    if moves == [] then []
    else
      var init := moves[..|moves| - 1];
      assert forall m :: m in init ==> m in moves;
      DepthZeroValues(t, g, n, init, p, o) + [DepthZeroValue(t, Place(g, n, moves[|moves| - 1], p), n, p, o)]
  }

  /** The value at position `k` is the depth-0 value after the `k`-th move. */
  lemma {:induction false} DepthZeroValuesAt(t: TranspositionTable, g: seq<seq<char>>, n: nat, moves: seq<Move>, p: char, o: char, k: nat)
    requires TableValid(t) && IsGrid(g, n) && forall m :: m in moves ==> InBounds(m, n)
    requires k < |moves|
    ensures DepthZeroValues(t, g, n, moves, p, o)[k] == DepthZeroValue(t, Place(g, n, moves[k], p), n, p, o)
    decreases |moves|
  {
    var init := moves[..|moves| - 1];
    assert forall m :: m in init ==> m in moves;
    if k < |moves| - 1 {
      DepthZeroValuesAt(t, g, n, init, p, o, k);
      assert init[k] == moves[k];
    }
  }

  /** Without an entry of non-negative depth, every depth-0 value is the
      static score after the move. */
  lemma {:induction false} DepthZeroValuesStatic(t: TranspositionTable, g: seq<seq<char>>, n: nat, moves: seq<Move>, p: char, o: char)
    requires TableValid(t) && IsGrid(g, n) && forall m :: m in moves ==> InBounds(m, n)
    requires NoDepthZeroEntry(t)
    ensures DepthZeroValues(t, g, n, moves, p, o) == MoveValues(g, n, moves, p, o)
    decreases |moves|
  {
    if moves != [] {
      var init := moves[..|moves| - 1];
      assert forall m :: m in init ==> m in moves;
      DepthZeroValuesStatic(t, g, n, init, p, o);
      var last := Place(g, n, moves[|moves| - 1], p);
      assert !Reuses(t, last, 0);
    }
  }

  /** The module state of backend/TicTacToeAi1.py. */
  class Engine {
    /** The module-level `transposition_table`. */
    var transpositionTable: TranspositionTable

    /** The table invariant `TableValid`. */
    ghost predicate Valid()
      reads this
    {
      TableValid(transpositionTable)
    }

    constructor ()
      ensures Valid() && transpositionTable == map[]
    {
      transpositionTable := map[];
    }

    /** `Reuses` on the engine's table. */
    predicate Reusable(key: seq<seq<char>>, depth: int)
      reads this
    {
      Reuses(transpositionTable, key, depth)
    }

    /** `NoDepthZeroEntry` on the engine's table. */
    ghost predicate NoReusableEntries()
      reads this
    {
      NoDepthZeroEntry(transpositionTable)
    }

    /** `minimax(board, depth, alpha, beta, size, max_depth, start_time,
        time_limit, player, opponent)`. A reusable table entry answers
        first; then the time limit and the cutoffs return the static score,
        leaving the table alone; otherwise the children are searched and the
        result is stored under the board with the depth. The board is
        restored and no table entry is ever removed. */
    method Minimax(board: Board, clock: Clock, depth: int, alpha: ExtInt, beta: ExtInt,
                   maxDepth: int, player: char, opponent: char) returns (value: int)
      requires Valid() && board.Valid()
      requires depth >= 0 || player != Empty || opponent != Empty
      modifies this, board, clock
      ensures Valid() && board.Valid() && board.cells == old(board.cells)
      ensures old(transpositionTable).Keys <= transpositionTable.Keys
      ensures old(Reusable(board.cells, depth)) ==>
        value == old(transpositionTable[board.cells].1.value) && transpositionTable == old(transpositionTable)
      ensures (!old(Reusable(board.cells, depth)) &&
               (old(clock.expired(clock.tests)) || Cutoff(board.cells, board.size, depth, player, opponent))) ==>
        value == StaticScore(board.cells, board.size, player, opponent) && transpositionTable == old(transpositionTable)
      ensures (!old(Reusable(board.cells, depth)) && !old(clock.expired(clock.tests)) &&
               !Cutoff(board.cells, board.size, depth, player, opponent)) ==>
        board.cells in transpositionTable && transpositionTable[board.cells] == (depth, Fin(value))
      decreases SearchMeasure(board.cells, board.size, depth, player), 2
    {
      var boardTuple := board.cells;
      if boardTuple in transpositionTable && transpositionTable[boardTuple].0 >= depth {
        return transpositionTable[boardTuple].1.value;
      }
      var up := clock.TimeUp();
      if up {
        value := Evaluate(board.cells, board.size, Extended, player, opponent);
        return;
      }
      var availableMoves := AvailableMoves(board.cells, board.size);
      var score := Evaluate(board.cells, board.size, Extended, player, opponent);
      if Abs(score) == WinScore || |availableMoves| == 0 || depth == 0 {
        return score;
      }
      var maxEval := SearchChildren(board, clock, depth, alpha, beta, maxDepth, player, opponent);
      transpositionTable := transpositionTable[boardTuple := (depth, maxEval)];
      value := maxEval.value;
    }

    /** The `for move in available_moves` loop of `minimax`: `'o'` keeps the
        maximum and raises alpha, any other marker keeps the minimum and
        lowers beta, until `beta <= alpha`. At least one child is searched,
        so the result is finite. */
    method SearchChildren(board: Board, clock: Clock, depth: int, alpha: ExtInt, beta: ExtInt,
                          maxDepth: int, player: char, opponent: char) returns (maxEval: ExtInt)
      requires Valid() && board.Valid() && depth != 0
      requires depth >= 0 || player != Empty || opponent != Empty
      requires AvailableMoves(board.cells, board.size) != []
      modifies this, board, clock
      ensures Valid() && board.Valid() && board.cells == old(board.cells)
      ensures old(transpositionTable).Keys <= transpositionTable.Keys
      ensures maxEval.Fin?
      decreases SearchMeasure(board.cells, board.size, depth, player), 1
    {
      ghost var g := board.cells;
      var availableMoves := AvailableMoves(board.cells, board.size);
      maxEval := if player == 'o' then NegInf else PosInf;
      var a, b := alpha, beta;
      var k := 0;
      while k < |availableMoves|
        invariant 0 <= k <= |availableMoves|
        invariant Valid() && board.Valid() && board.cells == g
        invariant old(transpositionTable).Keys <= transpositionTable.Keys
        invariant k == 0 ==> maxEval == if player == 'o' then NegInf else PosInf
        invariant k > 0 ==> maxEval.Fin?
        decreases |availableMoves| - k
      {
        var eval := SearchChild(board, clock, depth, a, b, maxDepth, player, opponent, k);
        if player == 'o' {
          maxEval := maxEval.Max(Fin(eval));
          a := a.Max(Fin(eval));
        } else {
          maxEval := maxEval.Min(Fin(eval));
          b := b.Min(Fin(eval));
        }
        if b.Le(a) {
          break;
        }
        k := k + 1;
      }
    }

    /** One child: place the player's marker on the `k`-th available move,
        search with roles swapped, window `(-beta, -alpha)` and one ply less,
        negate the result, and clear the cell again. A reusable entry for the
        child, or a child whose search stops at once, gives minus the child's
        entry or static score. */
    method SearchChild(board: Board, clock: Clock, depth: int, alpha: ExtInt, beta: ExtInt,
                       maxDepth: int, player: char, opponent: char, k: nat) returns (eval: int)
      requires Valid() && board.Valid() && depth != 0
      requires depth >= 0 || player != Empty || opponent != Empty
      requires k < |AvailableMoves(board.cells, board.size)|
      modifies this, board, clock
      ensures Valid() && board.Valid() && board.cells == old(board.cells)
      ensures old(transpositionTable).Keys <= transpositionTable.Keys
      ensures var child := Place(board.cells, board.size, AvailableMoves(board.cells, board.size)[k], player);
        old(Reusable(child, depth - 1)) ==> eval == -old(transpositionTable[child].1.value)
      ensures var child := Place(board.cells, board.size, AvailableMoves(board.cells, board.size)[k], player);
        !old(Reusable(child, depth - 1)) &&
        (old(clock.expired(clock.tests)) || Cutoff(child, board.size, depth - 1, opponent, player)) ==>
        eval == -StaticScore(child, board.size, opponent, player)
      decreases SearchMeasure(board.cells, board.size, depth, player), 0
    {
      ghost var g := board.cells;
      ghost var table := transpositionTable;
      ghost var timeUp := clock.expired(clock.tests);
      var move := AvailableMoves(board.cells, board.size)[k];
      ghost var child := Place(g, board.size, move, player);
      if depth < 0 {
        if player != Empty {
          PlaceShrinksEmptyCells(g, board.size, move, player);
        } else {
          PlaceBlankOnEmpty(g, board.size, move);
        }
      }
      board.Mark(move, player);
      assert board.cells == child && transpositionTable == table && clock.expired(clock.tests) == timeUp;
      var childValue := Minimax(board, clock, depth - 1, beta.Neg(), alpha.Neg(), maxDepth, opponent, player);
      eval := -childValue;
      board.Mark(move, Empty);
      PlaceUndo(g, board.size, move, player);
    }

    /** One iteration of the root loop of `find_best_move`: place the
        player's marker on the `k`-th available move, call `minimax` with
        depth 0 and the full window, and clear the cell again. A depth-0 call
        stores nothing and returns the depth-0 value of the board after the
        move. */
    method ScoreRootMove(board: Board, clock: Clock, maxDepth: int, player: char, opponent: char, k: nat) returns (moveValue: int)
      requires Valid() && board.Valid() && k < |AvailableMoves(board.cells, board.size)|
      modifies this, board, clock
      ensures Valid() && board.Valid() && board.cells == old(board.cells)
      ensures transpositionTable == old(transpositionTable)
      ensures moveValue == DepthZeroValues(transpositionTable, board.cells, board.size, AvailableMoves(board.cells, board.size), player, opponent)[k]
    {
      ghost var g := board.cells;
      var move := AvailableMoves(board.cells, board.size)[k];
      board.Mark(move, player);
      moveValue := Minimax(board, clock, 0, NegInf, PosInf, maxDepth, player, opponent);
      board.Mark(move, Empty);
      PlaceUndo(g, board.size, move, player);
      DepthZeroValuesAt(transpositionTable, g, board.size, AvailableMoves(g, board.size), player, opponent, k);
    }

    /** `find_best_move(board, size, player, opponent, max_depth)`: every
        available move is scored by `minimax` with depth 0 and the first one
        of greatest returned value is kept; `values` are the returned values,
        one per available move. Depth 0 stops every call at its cutoff, so
        nothing is stored and each value is the depth-0 value of the board
        after the move: the static score unless an earlier search left an
        entry of non-negative depth for it. */
    method FindBestMove(board: Board, clock: Clock, maxDepth: int, player: char, opponent: char)
      returns (best: Option<Move>, ghost values: seq<int>)
      requires Valid() && board.Valid()
      modifies this, board, clock
      ensures Valid() && board.Valid() && board.cells == old(board.cells)
      ensures transpositionTable == old(transpositionTable)
      ensures |values| == |AvailableMoves(board.cells, board.size)|
      ensures best.None? <==> AvailableMoves(board.cells, board.size) == []
      ensures best.Some? ==> best.value == AvailableMoves(board.cells, board.size)[FirstArgMax(values)]
      ensures values == DepthZeroValues(transpositionTable, board.cells, board.size, AvailableMoves(board.cells, board.size), player, opponent)
      ensures NoReusableEntries() ==> values == StaticValues(board.cells, board.size, player, opponent)
    {
      var bestValue := NegInf;
      best := None;
      var availableMoves := AvailableMoves(board.cells, board.size);
      ghost var g := board.cells;
      ghost var n := board.size;
      ghost var target := DepthZeroValues(transpositionTable, g, n, availableMoves, player, opponent);
      values := [];
      var k := 0;
      while k < |availableMoves|
        invariant 0 <= k <= |availableMoves|
        invariant Valid() && board.Valid() && board.cells == g
        invariant transpositionTable == old(transpositionTable)
        invariant |values| == k
        invariant values == target[..k]
        invariant Keeps(best, bestValue, availableMoves, values)
      {
        var moveValue := ScoreRootMove(board, clock, maxDepth, player, opponent, k);
        best, bestValue := KeepBest(best, bestValue, availableMoves, values, availableMoves[k], moveValue);
        TakeSnoc(target, k);
        values := values + [moveValue];
        k := k + 1;
      }
      assert target[..k] == target;
      if NoReusableEntries() {
        DepthZeroValuesStatic(transpositionTable, g, n, availableMoves, player, opponent);
      }
    }

    /** `get_move(board, size, team_roles)`: `None` when the board is full,
        otherwise the move `find_best_move` picks for `team_roles` against the
        other marker. The table is left as it was, so on an engine whose table
        holds no entry of non-negative depth (a fresh one, in particular)
        every call picks the first move of best static score. The random
        fallback of the source is unreachable. */
    method GetMove(board: Board, clock: Clock, teamRoles: char) returns (move: Option<Move>, ghost values: seq<int>)
      requires Valid() && board.Valid()
      modifies this, board, clock
      ensures Valid() && board.Valid() && board.cells == old(board.cells)
      ensures transpositionTable == old(transpositionTable)
      ensures |values| == |AvailableMoves(board.cells, board.size)|
      ensures move.None? <==> AvailableMoves(board.cells, board.size) == []
      ensures move.Some? ==> move.value == AvailableMoves(board.cells, board.size)[FirstArgMax(values)]
      ensures values == DepthZeroValues(transpositionTable, board.cells, board.size, AvailableMoves(board.cells, board.size), teamRoles, OpponentOf(teamRoles))
      ensures NoReusableEntries() ==> values == StaticValues(board.cells, board.size, teamRoles, OpponentOf(teamRoles))
    {
      var availableMoves := AvailableMoves(board.cells, board.size);
      if |availableMoves| == 0 {
        return None, [];
      }
      var player := teamRoles;
      var opponent := OpponentOf(teamRoles);
      move, values := FindBestMove(board, clock, DefaultMaxDepth, player, opponent);
      if move.None? {
        assert false;
      }
    }
  }
}
