/** The search of backend/TicTacToeAi.py: depth-limited minimax with
    alpha-beta pruning over the base pattern table, the player maximising and
    the opponent minimising, the static score returned at terminal boards, at
    the depth limit and once the time limit has passed. */
module AlphaBeta {
  import opened ExtendedInt
  import opened Grid
  import opened Patterns
  import opened Evaluation
  import opened Deadline
  import opened Choice

  /** The `max_depth` that `get_move` leaves at its default. */
  const DefaultMaxDepth: int := 5

  /** Plies left before `depth >= max_depth` stops the search. */
  function Remaining(depth: int, maxDepth: int): nat {
    if depth < maxDepth then maxDepth - depth else 0
  }

  /** `abs(score) == 10000 or not available_moves or depth >= max_depth`,
      where `score` is the board evaluated against the table `t`. */
  predicate Terminal(g: seq<seq<char>>, n: nat, t: Table, depth: int, maxDepth: int, p: char, o: char)
    requires IsGrid(g, n)
  {
    Abs(ScoreWith(g, n, t, p, o)) == WinScore || AvailableMoves(g, n) == [] || depth >= maxDepth
  }

  /** The marker placed by the side to move. */
  function Mover(isMaximizing: bool, p: char, o: char): char {
    if isMaximizing then p else o
  }

  /** The value of the unpruned search over the table `t`: the static score
      at terminal boards, otherwise the maximum (player to move) or minimum
      (opponent to move) of the children's values. */
  function MinimaxValue(g: seq<seq<char>>, n: nat, t: Table, depth: int, isMaximizing: bool, maxDepth: int, p: char, o: char): int
    requires IsGrid(g, n)
    decreases Remaining(depth, maxDepth), 1, 0
  {
    if Terminal(g, n, t, depth, maxDepth, p, o) then ScoreWith(g, n, t, p, o)
    else BestChild(g, n, t, depth, isMaximizing, maxDepth, p, o, |AvailableMoves(g, n)|).value
  }

  /** The best value among the children reached by the first `k` available
      moves, starting from `-inf` (maximising) or `inf` (minimising). */
  function BestChild(g: seq<seq<char>>, n: nat, t: Table, depth: int, isMaximizing: bool, maxDepth: int, p: char, o: char, k: nat): (r: ExtInt)
    requires IsGrid(g, n) && depth < maxDepth && k <= |AvailableMoves(g, n)|
    ensures k > 0 <==> r.Fin?
    ensures k == 0 ==> r == if isMaximizing then NegInf else PosInf
    decreases Remaining(depth, maxDepth), 0, k
  {
    if k == 0 then (if isMaximizing then NegInf else PosInf)
    else
      var prev := BestChild(g, n, t, depth, isMaximizing, maxDepth, p, o, k - 1);
      var v := Fin(ChildValue(g, n, t, depth, isMaximizing, maxDepth, p, o, k - 1));
      if isMaximizing then prev.Max(v) else prev.Min(v)
  }

  /** The value of the child reached by the `k`-th available move. */
  function ChildValue(g: seq<seq<char>>, n: nat, t: Table, depth: int, isMaximizing: bool, maxDepth: int, p: char, o: char, k: nat): int
    requires IsGrid(g, n) && depth < maxDepth && k < |AvailableMoves(g, n)|
    decreases Remaining(depth, maxDepth), 0, k
  {
    MinimaxValue(Place(g, n, AvailableMoves(g, n)[k], Mover(isMaximizing, p, o)), n, t, depth + 1, !isMaximizing, maxDepth, p, o)
  }

  /** Scanning more children only raises the maximum and lowers the minimum,
      and each scanned child's value is bounded by it. */
  lemma {:induction false} BestChildMonotone(g: seq<seq<char>>, n: nat, t: Table, depth: int, isMaximizing: bool, maxDepth: int, p: char, o: char, k: nat, m: nat)
    requires IsGrid(g, n) && depth < maxDepth && k < m <= |AvailableMoves(g, n)|
    ensures var best := BestChild(g, n, t, depth, isMaximizing, maxDepth, p, o, m);
      var child := Fin(ChildValue(g, n, t, depth, isMaximizing, maxDepth, p, o, k));
      if isMaximizing then child.Le(best) else best.Le(child)
    decreases m
  {
    if k < m - 1 {
      BestChildMonotone(g, n, t, depth, isMaximizing, maxDepth, p, o, k, m - 1);
      var prev := BestChild(g, n, t, depth, isMaximizing, maxDepth, p, o, m - 1);
      var child := Fin(ChildValue(g, n, t, depth, isMaximizing, maxDepth, p, o, k));
      var best := BestChild(g, n, t, depth, isMaximizing, maxDepth, p, o, m);
      if isMaximizing {
        LeTotalOrder(child, prev, best);
      } else {
        LeTotalOrder(best, prev, child);
      }
    }
  }

  /** Once a child has been scanned, the best value is the value of one of
      the children scanned. */
  lemma {:induction false} BestChildAttained(g: seq<seq<char>>, n: nat, t: Table, depth: int, isMaximizing: bool, maxDepth: int, p: char, o: char, k: nat)
    requires IsGrid(g, n) && depth < maxDepth && 0 < k <= |AvailableMoves(g, n)|
    ensures exists i :: 0 <= i < k && BestChild(g, n, t, depth, isMaximizing, maxDepth, p, o, k) == Fin(ChildValue(g, n, t, depth, isMaximizing, maxDepth, p, o, i))
    decreases k
  {
    var v := Fin(ChildValue(g, n, t, depth, isMaximizing, maxDepth, p, o, k - 1));
    if BestChild(g, n, t, depth, isMaximizing, maxDepth, p, o, k) != v {
      BestChildAttained(g, n, t, depth, isMaximizing, maxDepth, p, o, k - 1);
    }
  }

  /** The unpruned value of a board that is not terminal is the value of one
      of its children: never an infinity. */
  lemma MinimaxValueIsAChild(g: seq<seq<char>>, n: nat, t: Table, depth: int, isMaximizing: bool, maxDepth: int, p: char, o: char)
    requires IsGrid(g, n) && !Terminal(g, n, t, depth, maxDepth, p, o)
    ensures exists i ::
      0 <= i < |AvailableMoves(g, n)| &&
      MinimaxValue(g, n, t, depth, isMaximizing, maxDepth, p, o) == ChildValue(g, n, t, depth, isMaximizing, maxDepth, p, o, i)
  {
    BestChildAttained(g, n, t, depth, isMaximizing, maxDepth, p, o, |AvailableMoves(g, n)|);
  }

  /** A search value `r` obtained within the window `(alpha, beta)` is fail-soft
      with respect to the true value `v`: at or below `alpha` it is an upper
      bound, at or above `beta` a lower bound, and strictly inside the window
      it is exact. */
  predicate FailSoft(r: ExtInt, v: ExtInt, alpha: ExtInt, beta: ExtInt) {
    (r.Le(alpha) ==> v.Le(r)) &&
    (beta.Le(r) ==> r.Le(v)) &&
    (alpha.Lt(r) && r.Lt(beta) ==> r == v)
  }

  /** With the root window `(-inf, inf)` a fail-soft value is exact. */
  lemma FailSoftFullWindow(r: int, v: int)
    requires FailSoft(Fin(r), Fin(v), NegInf, PosInf)
    ensures r == v
  {
  }

  /** One iteration of the maximising loop: `max_eval = max(max_eval, eval)`,
      `alpha = max(alpha, eval)` keep the loop invariant, or the loop breaks
      with `max_eval` a lower bound of the value. */
  lemma MaxStep(alpha: ExtInt, beta: ExtInt, a: ExtInt, maxEval: ExtInt, best: ExtInt, r: int, v: int)
    requires a == alpha.Max(maxEval) && a.Lt(beta)
    requires best.Le(maxEval) && (alpha.Lt(maxEval) ==> best == maxEval)
    requires FailSoft(Fin(r), Fin(v), a, beta)
    ensures a.Max(Fin(r)) == alpha.Max(maxEval.Max(Fin(r)))
    ensures a.Max(Fin(r)).Lt(beta) ==>
      best.Max(Fin(v)).Le(maxEval.Max(Fin(r))) &&
      (alpha.Lt(maxEval.Max(Fin(r))) ==> best.Max(Fin(v)) == maxEval.Max(Fin(r)))
    ensures beta.Le(a.Max(Fin(r))) ==> maxEval.Max(Fin(r)) == Fin(r) && r <= v && beta.Le(Fin(r))
  {
  }

  /** One iteration of the minimising loop: `min_eval = min(min_eval, eval)`,
      `beta = min(beta, eval)` keep the loop invariant, or the loop breaks
      with `min_eval` an upper bound of the value. */
  lemma MinStep(alpha: ExtInt, beta: ExtInt, b: ExtInt, minEval: ExtInt, best: ExtInt, r: int, v: int)
    requires b == beta.Min(minEval) && alpha.Lt(b)
    requires minEval.Le(best) && (minEval.Lt(beta) ==> best == minEval)
    requires FailSoft(Fin(r), Fin(v), alpha, b)
    ensures b.Min(Fin(r)) == beta.Min(minEval.Min(Fin(r)))
    ensures alpha.Lt(b.Min(Fin(r))) ==>
      minEval.Min(Fin(r)).Le(best.Min(Fin(v))) &&
      (minEval.Min(Fin(r)).Lt(beta) ==> best.Min(Fin(v)) == minEval.Min(Fin(r)))
    ensures b.Min(Fin(r)).Le(alpha) ==> minEval.Min(Fin(r)) == Fin(r) && v <= r && Fin(r).Le(alpha)
  {
  }

  /** `minimax(board, depth, is_maximizing, alpha, beta, size, max_depth,
      start_time, time_limit, player, opponent)`, with `evaluate_line`
      scoring against `patterns`. The board is restored; once the time limit
      has passed, at terminal boards and at the depth limit the static score
      is returned; and a search that is never cut short by the clock is
      fail-soft with respect to the unpruned `MinimaxValue`. */
  method Minimax(board: Board, clock: Clock, patterns: Table, depth: int, isMaximizing: bool, alpha: ExtInt, beta: ExtInt,
                 maxDepth: int, player: char, opponent: char) returns (value: int)
    requires board.Valid()
    modifies board, clock
    ensures board.Valid() && board.cells == old(board.cells)
    ensures clock.tests > old(clock.tests)
    ensures old(clock.expired(clock.tests)) ==> value == ScoreWith(board.cells, board.size, patterns, player, opponent)
    ensures Terminal(board.cells, board.size, patterns, depth, maxDepth, player, opponent) ==>
      value == ScoreWith(board.cells, board.size, patterns, player, opponent)
    ensures clock.NeverExpires() && alpha.Lt(beta) ==>
      FailSoft(Fin(value), Fin(MinimaxValue(board.cells, board.size, patterns, depth, isMaximizing, maxDepth, player, opponent)), alpha, beta)
    decreases Remaining(depth, maxDepth), 3
  {
    var up := clock.TimeUp();
    if up {
      value := EvaluateWith(board.cells, board.size, patterns, player, opponent);
      return;
    }
    var availableMoves := AvailableMoves(board.cells, board.size);
    var score := EvaluateWith(board.cells, board.size, patterns, player, opponent);
    if Abs(score) == WinScore || |availableMoves| == 0 || depth >= maxDepth {
      return score;
    }
    if isMaximizing {
      value := SearchMax(board, clock, patterns, depth, alpha, beta, maxDepth, player, opponent);
    } else {
      value := SearchMin(board, clock, patterns, depth, alpha, beta, maxDepth, player, opponent);
    }
  }

  /** The body of the `for move in available_moves` loops: place the mover's
      marker on the `k`-th available move, search the child with the current
      window, and clear the cell again. */
  method SearchChild(board: Board, clock: Clock, patterns: Table, depth: int, isMaximizing: bool, alpha: ExtInt, beta: ExtInt,
                     maxDepth: int, player: char, opponent: char, k: nat) returns (eval: int)
    requires board.Valid() && depth < maxDepth && k < |AvailableMoves(board.cells, board.size)|
    modifies board, clock
    ensures board.Valid() && board.cells == old(board.cells)
    ensures clock.tests > old(clock.tests)
    ensures clock.NeverExpires() && alpha.Lt(beta) ==>
      FailSoft(Fin(eval), Fin(ChildValue(board.cells, board.size, patterns, depth, isMaximizing, maxDepth, player, opponent, k)), alpha, beta)
    decreases Remaining(depth, maxDepth), 0
  {
    ghost var g := board.cells;
    var move := AvailableMoves(board.cells, board.size)[k];
    var marker := Mover(isMaximizing, player, opponent);
    board.Mark(move, marker);
    eval := Minimax(board, clock, patterns, depth + 1, !isMaximizing, alpha, beta, maxDepth, player, opponent);
    board.Mark(move, Empty);
    PlaceUndo(g, board.size, move, marker);
  }

  /** One iteration of the maximising loop: search the `k`-th child with the
      window `(a, beta)`, then raise `max_eval` and `alpha`; `cut` reports
      `beta <= alpha`. */
  method MaxIteration(board: Board, clock: Clock, patterns: Table, depth: int, alpha: ExtInt, beta: ExtInt,
                      maxDepth: int, player: char, opponent: char, k: nat, a: ExtInt, maxEval: ExtInt)
    returns (a': ExtInt, maxEval': ExtInt, cut: bool)
    requires board.Valid() && depth < maxDepth && k < |AvailableMoves(board.cells, board.size)|
    requires a == alpha.Max(maxEval) && (k == 0 ==> maxEval == NegInf) && (k > 0 ==> maxEval.Fin?)
    requires clock.NeverExpires() && alpha.Lt(beta) ==> a.Lt(beta)
    requires clock.NeverExpires() && alpha.Lt(beta) ==>
      var best := BestChild(board.cells, board.size, patterns, depth, true, maxDepth, player, opponent, k);
      best.Le(maxEval) && (alpha.Lt(maxEval) ==> best == maxEval)
    modifies board, clock
    ensures board.Valid() && board.cells == old(board.cells)
    ensures clock.tests > old(clock.tests)
    ensures a' == alpha.Max(maxEval') && maxEval'.Fin? && cut == beta.Le(a')
    ensures clock.NeverExpires() && alpha.Lt(beta) && !cut ==>
      var best := BestChild(board.cells, board.size, patterns, depth, true, maxDepth, player, opponent, k + 1);
      best.Le(maxEval') && (alpha.Lt(maxEval') ==> best == maxEval')
    ensures clock.NeverExpires() && alpha.Lt(beta) && cut ==>
      FailSoft(maxEval', BestChild(board.cells, board.size, patterns, depth, true, maxDepth, player, opponent, |AvailableMoves(board.cells, board.size)|), alpha, beta)
    decreases Remaining(depth, maxDepth), 1
  {
    ghost var g := board.cells;
    ghost var n := board.size;
    var eval := SearchChild(board, clock, patterns, depth, true, a, beta, maxDepth, player, opponent, k);
    if clock.NeverExpires() && alpha.Lt(beta) {
      MaxStep(alpha, beta, a, maxEval, BestChild(g, n, patterns, depth, true, maxDepth, player, opponent, k), eval,
              ChildValue(g, n, patterns, depth, true, maxDepth, player, opponent, k));
    }
    maxEval' := maxEval.Max(Fin(eval));
    a' := a.Max(Fin(eval));
    cut := beta.Le(a');
    if cut && clock.NeverExpires() && alpha.Lt(beta) {
      BestChildMonotone(g, n, patterns, depth, true, maxDepth, player, opponent, k, |AvailableMoves(g, n)|);
    }
  }

  /** The `is_maximizing` branch: `max_eval` and `alpha` rise with each child
      until `beta <= alpha` cuts the remaining moves off. */
  method SearchMax(board: Board, clock: Clock, patterns: Table, depth: int, alpha: ExtInt, beta: ExtInt,
                   maxDepth: int, player: char, opponent: char) returns (value: int)
    requires board.Valid() && depth < maxDepth && AvailableMoves(board.cells, board.size) != []
    modifies board, clock
    ensures board.Valid() && board.cells == old(board.cells)
    ensures clock.tests > old(clock.tests)
    ensures clock.NeverExpires() && alpha.Lt(beta) ==>
      FailSoft(Fin(value), BestChild(board.cells, board.size, patterns, depth, true, maxDepth, player, opponent, |AvailableMoves(board.cells, board.size)|), alpha, beta)
    decreases Remaining(depth, maxDepth), 2
  {
    ghost var g := board.cells;
    ghost var n := board.size;
    var availableMoves := AvailableMoves(board.cells, board.size);
    ghost var exact := clock.NeverExpires() && alpha.Lt(beta);
    var a := alpha;
    var maxEval := NegInf;
    var k := 0;
    while k < |availableMoves|
      invariant 0 <= k <= |availableMoves|
      invariant board.Valid() && board.cells == g
      invariant clock.tests >= old(clock.tests) && (k > 0 ==> clock.tests > old(clock.tests))
      invariant a == alpha.Max(maxEval)
      invariant k == 0 ==> maxEval == NegInf
      invariant k > 0 ==> maxEval.Fin?
      invariant exact == (clock.NeverExpires() && alpha.Lt(beta))
      invariant exact ==> a.Lt(beta)
      invariant exact ==> var best := BestChild(g, n, patterns, depth, true, maxDepth, player, opponent, k);
        best.Le(maxEval) && (alpha.Lt(maxEval) ==> best == maxEval)
      decreases |availableMoves| - k
    {
      var cut;
      a, maxEval, cut := MaxIteration(board, clock, patterns, depth, alpha, beta, maxDepth, player, opponent, k, a, maxEval);
      if cut {
        break;
      }
      k := k + 1;
    }
    value := maxEval.value;
  }

  /** One iteration of the minimising loop: search the `k`-th child with the
      window `(alpha, b)`, then lower `min_eval` and `beta`; `cut` reports
      `beta <= alpha`. */
  method MinIteration(board: Board, clock: Clock, patterns: Table, depth: int, alpha: ExtInt, beta: ExtInt,
                      maxDepth: int, player: char, opponent: char, k: nat, b: ExtInt, minEval: ExtInt)
    returns (b': ExtInt, minEval': ExtInt, cut: bool)
    requires board.Valid() && depth < maxDepth && k < |AvailableMoves(board.cells, board.size)|
    requires b == beta.Min(minEval) && (k == 0 ==> minEval == PosInf) && (k > 0 ==> minEval.Fin?)
    requires clock.NeverExpires() && alpha.Lt(beta) ==> alpha.Lt(b)
    requires clock.NeverExpires() && alpha.Lt(beta) ==>
      var best := BestChild(board.cells, board.size, patterns, depth, false, maxDepth, player, opponent, k);
      minEval.Le(best) && (minEval.Lt(beta) ==> best == minEval)
    modifies board, clock
    ensures board.Valid() && board.cells == old(board.cells)
    ensures clock.tests > old(clock.tests)
    ensures b' == beta.Min(minEval') && minEval'.Fin? && cut == b'.Le(alpha)
    ensures clock.NeverExpires() && alpha.Lt(beta) && !cut ==>
      var best := BestChild(board.cells, board.size, patterns, depth, false, maxDepth, player, opponent, k + 1);
      minEval'.Le(best) && (minEval'.Lt(beta) ==> best == minEval')
    ensures clock.NeverExpires() && alpha.Lt(beta) && cut ==>
      FailSoft(minEval', BestChild(board.cells, board.size, patterns, depth, false, maxDepth, player, opponent, |AvailableMoves(board.cells, board.size)|), alpha, beta)
    decreases Remaining(depth, maxDepth), 1
  {
    ghost var g := board.cells;
    ghost var n := board.size;
    var eval := SearchChild(board, clock, patterns, depth, false, alpha, b, maxDepth, player, opponent, k);
    if clock.NeverExpires() && alpha.Lt(beta) {
      MinStep(alpha, beta, b, minEval, BestChild(g, n, patterns, depth, false, maxDepth, player, opponent, k), eval,
              ChildValue(g, n, patterns, depth, false, maxDepth, player, opponent, k));
    }
    minEval' := minEval.Min(Fin(eval));
    b' := b.Min(Fin(eval));
    cut := b'.Le(alpha);
    if cut && clock.NeverExpires() && alpha.Lt(beta) {
      BestChildMonotone(g, n, patterns, depth, false, maxDepth, player, opponent, k, |AvailableMoves(g, n)|);
    }
  }

  /** The other branch: `min_eval` and `beta` fall with each child until
      `beta <= alpha` cuts the remaining moves off. */
  method SearchMin(board: Board, clock: Clock, patterns: Table, depth: int, alpha: ExtInt, beta: ExtInt,
                   maxDepth: int, player: char, opponent: char) returns (value: int)
    requires board.Valid() && depth < maxDepth && AvailableMoves(board.cells, board.size) != []
    modifies board, clock
    ensures board.Valid() && board.cells == old(board.cells)
    ensures clock.tests > old(clock.tests)
    ensures clock.NeverExpires() && alpha.Lt(beta) ==>
      FailSoft(Fin(value), BestChild(board.cells, board.size, patterns, depth, false, maxDepth, player, opponent, |AvailableMoves(board.cells, board.size)|), alpha, beta)
    decreases Remaining(depth, maxDepth), 2
  {
    ghost var g := board.cells;
    ghost var n := board.size;
    var availableMoves := AvailableMoves(board.cells, board.size);
    ghost var exact := clock.NeverExpires() && alpha.Lt(beta);
    var b := beta;
    var minEval := PosInf;
    var k := 0;
    while k < |availableMoves|
      invariant 0 <= k <= |availableMoves|
      invariant board.Valid() && board.cells == g
      invariant clock.tests >= old(clock.tests) && (k > 0 ==> clock.tests > old(clock.tests))
      invariant b == beta.Min(minEval)
      invariant k == 0 ==> minEval == PosInf
      invariant k > 0 ==> minEval.Fin?
      invariant exact == (clock.NeverExpires() && alpha.Lt(beta))
      invariant exact ==> alpha.Lt(b)
      invariant exact ==> var best := BestChild(g, n, patterns, depth, false, maxDepth, player, opponent, k);
        minEval.Le(best) && (minEval.Lt(beta) ==> best == minEval)
      decreases |availableMoves| - k
    {
      var cut;
      b, minEval, cut := MinIteration(board, clock, patterns, depth, alpha, beta, maxDepth, player, opponent, k, b, minEval);
      if cut {
        break;
      }
      k := k + 1;
    }
    value := minEval.value;
  }

  /** The unpruned values of the boards reached by playing each of `moves`
      for `p`, searched by the opponent at depth 1 against the table `t`. */
  function MoveValues(g: seq<seq<char>>, n: nat, t: Table, moves: seq<Move>, maxDepth: int, p: char, o: char): (values: seq<int>)
    requires IsGrid(g, n) && forall m :: m in moves ==> InBounds(m, n)
    ensures |values| == |moves|
  {
    if moves == [] then []
    else
      var init := moves[..|moves| - 1];
      assert forall m :: m in init ==> m in moves;
      MoveValues(g, n, t, init, maxDepth, p, o) + [MinimaxValue(Place(g, n, moves[|moves| - 1], p), n, t, 0, false, maxDepth, p, o)]
  }

  /** The value at position `k` is the value of the board after the `k`-th move. */
  lemma {:induction false} MoveValuesAt(g: seq<seq<char>>, n: nat, t: Table, moves: seq<Move>, maxDepth: int, p: char, o: char, k: nat)
    requires IsGrid(g, n) && forall m :: m in moves ==> InBounds(m, n)
    requires k < |moves|
    ensures MoveValues(g, n, t, moves, maxDepth, p, o)[k] == MinimaxValue(Place(g, n, moves[k], p), n, t, 0, false, maxDepth, p, o)
    decreases |moves|
  {
    var init := moves[..|moves| - 1];
    assert forall m :: m in init ==> m in moves;
    if k < |moves| - 1 {
      MoveValuesAt(g, n, t, init, maxDepth, p, o, k);
      assert init[k] == moves[k];
    }
  }

  /** The static scores, against the table `t`, of the boards reached by
      playing each of `moves` for `p`: what the root loop gets for a move
      whose search finds the time up at once. */
  function StaticMoveValues(g: seq<seq<char>>, n: nat, t: Table, moves: seq<Move>, p: char, o: char): (values: seq<int>)
    requires IsGrid(g, n) && forall m :: m in moves ==> InBounds(m, n)
    ensures |values| == |moves|
  {
    if moves == [] then []
    else
      var init := moves[..|moves| - 1];
      assert forall m :: m in init ==> m in moves;
      StaticMoveValues(g, n, t, init, p, o) + [ScoreWith(Place(g, n, moves[|moves| - 1], p), n, t, p, o)]
  }

  /** The value at position `k` is the static score after the `k`-th move. */
  lemma {:induction false} StaticMoveValuesAt(g: seq<seq<char>>, n: nat, t: Table, moves: seq<Move>, p: char, o: char, k: nat)
    requires IsGrid(g, n) && forall m :: m in moves ==> InBounds(m, n)
    requires k < |moves|
    ensures StaticMoveValues(g, n, t, moves, p, o)[k] == ScoreWith(Place(g, n, moves[k], p), n, t, p, o)
    decreases |moves|
  {
    var init := moves[..|moves| - 1];
    assert forall m :: m in init ==> m in moves;
    if k < |moves| - 1 {
      StaticMoveValuesAt(g, n, t, init, p, o, k);
      assert init[k] == moves[k];
    }
  }

  /** The static scores over the base table after each available move. */
  function StaticRootValues(g: seq<seq<char>>, n: nat, p: char, o: char): (values: seq<int>)
    requires IsGrid(g, n)
    ensures |values| == |AvailableMoves(g, n)|
  {
    StaticMoveValues(g, n, PatternTable(Base, p, o), AvailableMoves(g, n), p, o)
  }

  /** The values the root loop of `find_best_move` computes for the available
      moves, in order, when the search is never cut short: the unpruned value
      of each child over the base pattern table. */
  function RootValues(g: seq<seq<char>>, n: nat, maxDepth: int, p: char, o: char): (values: seq<int>)
    requires IsGrid(g, n)
    ensures |values| == |AvailableMoves(g, n)|
  {
    MoveValues(g, n, PatternTable(Base, p, o), AvailableMoves(g, n), maxDepth, p, o)
  }

  /** One iteration of the root loop of `find_best_move`: place the player's
      marker on the `k`-th available move, search it with the full window
      `(-inf, inf)`, and clear the cell again. If the child's own time test
      finds the time up, the value is the static score after the move; if
      the clock never runs out it is the exact unpruned value. */
  method ScoreRootMove(board: Board, clock: Clock, patterns: Table, maxDepth: int, player: char, opponent: char, k: nat)
    returns (moveValue: int)
    requires board.Valid() && k < |AvailableMoves(board.cells, board.size)|
    modifies board, clock
    ensures board.Valid() && board.cells == old(board.cells)
    ensures clock.tests > old(clock.tests)
    ensures old(clock.expired(clock.tests)) ==>
      moveValue == StaticMoveValues(board.cells, board.size, patterns, AvailableMoves(board.cells, board.size), player, opponent)[k]
    ensures clock.NeverExpires() ==>
      moveValue == MoveValues(board.cells, board.size, patterns, AvailableMoves(board.cells, board.size), maxDepth, player, opponent)[k]
  {
    ghost var g := board.cells;
    var move := AvailableMoves(board.cells, board.size)[k];
    board.Mark(move, player);
    assert board.cells == Place(g, board.size, move, player);
    moveValue := Minimax(board, clock, patterns, 0, false, NegInf, PosInf, maxDepth, player, opponent);
    board.Mark(move, Empty);
    PlaceUndo(g, board.size, move, player);
    StaticMoveValuesAt(g, board.size, patterns, AvailableMoves(g, board.size), player, opponent, k);
    MoveValuesAt(g, board.size, patterns, AvailableMoves(g, board.size), maxDepth, player, opponent, k);
    if clock.NeverExpires() {
      FailSoftFullWindow(moveValue, MinimaxValue(Place(g, board.size, move, player), board.size, patterns, 0, false, maxDepth, player, opponent));
    }
  }

  /** The root loop of `find_best_move` with `evaluate_line` scoring against
      `patterns`: every available move is tried with the full window
      `(-inf, inf)` and the first one of greatest returned value is kept,
      however the clock answers. `values` are the returned values, one per
      available move, and `starts` the clock's test counts at which each
      move's search begins. A move whose first test finds the time up has
      the static score after it as its value; when the search is never cut
      short the values are the unpruned ones. */
  method RootSearch(board: Board, clock: Clock, patterns: Table, maxDepth: int, player: char, opponent: char)
    returns (best: Option<Move>, ghost values: seq<int>, ghost starts: seq<nat>)
    requires board.Valid()
    modifies board, clock
    ensures board.Valid() && board.cells == old(board.cells)
    ensures |values| == |AvailableMoves(board.cells, board.size)| == |starts|
    ensures forall i :: 0 <= i < |starts| ==> old(clock.tests) <= starts[i] < clock.tests
    ensures forall i, j :: 0 <= i < j < |starts| ==> starts[i] < starts[j]
    ensures forall i :: 0 <= i < |values| && clock.expired(starts[i]) ==>
      values[i] == StaticMoveValues(board.cells, board.size, patterns, AvailableMoves(board.cells, board.size), player, opponent)[i]
    ensures clock.ExpiredFrom(old(clock.tests)) ==>
      values == StaticMoveValues(board.cells, board.size, patterns, AvailableMoves(board.cells, board.size), player, opponent)
    ensures best.None? <==> AvailableMoves(board.cells, board.size) == []
    ensures best.Some? ==> best.value == AvailableMoves(board.cells, board.size)[FirstArgMax(values)]
    ensures clock.NeverExpires() ==>
      values == MoveValues(board.cells, board.size, patterns, AvailableMoves(board.cells, board.size), maxDepth, player, opponent)
  {
    var bestValue := NegInf;
    best := None;
    var availableMoves := AvailableMoves(board.cells, board.size);
    ghost var g := board.cells;
    ghost var target := MoveValues(g, board.size, patterns, availableMoves, maxDepth, player, opponent);
    ghost var n := board.size;
    ghost var statics := StaticMoveValues(g, n, patterns, availableMoves, player, opponent);
    values, starts := [], [];
    var k := 0;
    while k < |availableMoves|
      invariant 0 <= k <= |availableMoves|
      invariant board.Valid() && board.cells == g && board.size == n
      invariant |values| == k == |starts|
      invariant old(clock.tests) <= clock.tests
      invariant StartedInOrder(clock.expired, old(clock.tests), clock.tests, starts, values, statics)
      invariant clock.NeverExpires() ==> values == target[..k]
      invariant Keeps(best, bestValue, availableMoves, values)
    {
      ghost var now := clock.tests;
      var moveValue := ScoreRootMove(board, clock, patterns, maxDepth, player, opponent, k);
      best, bestValue := KeepBest(best, bestValue, availableMoves, values, availableMoves[k], moveValue);
      TakeSnoc(target, k);
      StartedInOrderSnoc(clock.expired, old(clock.tests), now, clock.tests, starts, values, statics, moveValue);
      starts := starts + [now];
      values := values + [moveValue];
      k := k + 1;
    }
    assert target[..k] == target;
    if clock.ExpiredFrom(old(clock.tests)) {
      LateStart(clock.expired, old(clock.tests), clock.tests, starts, values, statics);
    }
  }

  /** `find_best_move(board, size, player, opponent, max_depth)`: the root
      search over the base pattern table; there is no move exactly when the
      board is full, and otherwise the move is the first available one of
      greatest returned value, which is its unpruned value when the search is
      never cut short, and the static score after the move when the move's
      first time test finds the time up. */
  method FindBestMove(board: Board, clock: Clock, maxDepth: int, player: char, opponent: char)
    returns (best: Option<Move>, ghost values: seq<int>, ghost starts: seq<nat>)
    requires board.Valid()
    modifies board, clock
    ensures board.Valid() && board.cells == old(board.cells)
    ensures |values| == |AvailableMoves(board.cells, board.size)| == |starts|
    ensures forall i :: 0 <= i < |starts| ==> old(clock.tests) <= starts[i] < clock.tests
    ensures forall i, j :: 0 <= i < j < |starts| ==> starts[i] < starts[j]
    ensures forall i :: 0 <= i < |values| && clock.expired(starts[i]) ==>
      values[i] == StaticRootValues(board.cells, board.size, player, opponent)[i]
    ensures clock.ExpiredFrom(old(clock.tests)) ==> values == StaticRootValues(board.cells, board.size, player, opponent)
    ensures best.None? <==> AvailableMoves(board.cells, board.size) == []
    ensures best.Some? ==> best.value == AvailableMoves(board.cells, board.size)[FirstArgMax(values)]
    ensures clock.NeverExpires() ==> values == RootValues(board.cells, board.size, maxDepth, player, opponent)
  {
    best, values, starts := RootSearch(board, clock, PatternTable(Base, player, opponent), maxDepth, player, opponent);
  }

  /** `get_move(board, size, team_roles)`: `None` when the board is full,
      otherwise the move `find_best_move` picks for `team_roles` against the
      other marker with the default depth. The random fallback of the source
      is unreachable, because `find_best_move` finds a move whenever one is
      available. */
  method GetMove(board: Board, clock: Clock, teamRoles: char)
    returns (move: Option<Move>, ghost values: seq<int>, ghost starts: seq<nat>)
    requires board.Valid()
    modifies board, clock
    ensures board.Valid() && board.cells == old(board.cells)
    ensures |values| == |AvailableMoves(board.cells, board.size)| == |starts|
    ensures forall i :: 0 <= i < |starts| ==> old(clock.tests) <= starts[i] < clock.tests
    ensures forall i, j :: 0 <= i < j < |starts| ==> starts[i] < starts[j]
    ensures forall i :: 0 <= i < |values| && clock.expired(starts[i]) ==>
      values[i] == StaticRootValues(board.cells, board.size, teamRoles, OpponentOf(teamRoles))[i]
    ensures clock.ExpiredFrom(old(clock.tests)) ==>
      values == StaticRootValues(board.cells, board.size, teamRoles, OpponentOf(teamRoles))
    ensures move.None? <==> AvailableMoves(board.cells, board.size) == []
    ensures move.Some? ==> move.value == AvailableMoves(board.cells, board.size)[FirstArgMax(values)]
    ensures clock.NeverExpires() ==>
      values == RootValues(board.cells, board.size, DefaultMaxDepth, teamRoles, OpponentOf(teamRoles))
  {
    var availableMoves := AvailableMoves(board.cells, board.size);
    if |availableMoves| == 0 {
      return None, [], [];
    }
    var player := teamRoles;
    var opponent := OpponentOf(teamRoles);
    move, values, starts := FindBestMove(board, clock, DefaultMaxDepth, player, opponent);
    if move.None? {
      assert false;
    }
  }
}
