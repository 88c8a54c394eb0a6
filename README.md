# Move selection of the 5-in-a-row engine, in Dafny

The repository ships one engine that picks moves for five-in-a-row
(gomoku) on an N-by-N board, in two variants:

- `backend/TicTacToeAi.py` scores with the base pattern table. Its search is
  a depth-limited minimax with alpha-beta pruning: the player maximises, the
  opponent minimises.
- `backend/TicTacToeAi1.py` scores with an extended table of 56 patterns.
  Its search is negamax-like and uses a module-level transposition table.
  Its `find_best_move` calls that search with depth 0, so only one ply is
  ever looked at.

Both files share the same helpers, textually identical:
`get_available_moves`, `is_winner`, `get_diagonal`,
`evaluate_all_diagonals` and `evaluate`.

The Dafny model follows the source's own shape:

- The board is a class, `Grid.Board`. Its cell grid is written in place by
  `Mark` and restored after each child search.
- The scoring loops are methods. Each is proved equal to a specification
  function (`LineScore`, `LinesScore`, `ScoreWith`, `Score`).
- The two searches are methods. `AlphaBeta.Minimax` is proved fail-soft
  against the unpruned minimax value `MinimaxValue`. `Negamax.Engine.Minimax`
  is proved to keep and update the transposition table the way the source
  does.
- Both `find_best_move` loops are proved to return the first available move
  of greatest returned value, with the returned values stated as follows.
  - In `Negamax` they are stated for every clock and every table: a reusable
    entry's value, else the static score after the move (`DepthZeroValues`).
    A table holding no entry of depth 0 or more (a fresh table holds none)
    gives the static scores.
  - In `AlphaBeta` they are the unpruned minimax values when the clock never
    expires. A move whose first time test finds the time up gets the static
    score after it, so a search started after its deadline picks the first
    move of best static score. A move whose search is cut short deeper down
    gets a value this model does not state (see "## Left out").

Modules:

| file | module | models |
|---|---|---|
| `extended_int.dfy` | `ExtendedInt` | the ±`float('inf')` sentinels and Python's `max`, `min`, unary minus and comparison on them |
| `grid.dfy` | `Grid` | the board, `board[i][j] = c`, `get_available_moves`, and the opponent choice of `get_move` |
| `winner.dfy` | `Winner` | `is_winner`, and how it relates to five in a row |
| `patterns.dfy` | `Patterns` | Python's `str.count`, the dict display holding each table, both tables, and the score of one line |
| `evaluation.dfy` | `Evaluation` | `evaluate_line`, `get_diagonal`, `evaluate_all_diagonals`, `evaluate` |
| `choice.dfy` | `Choice` | the `if move_value > best_value` root loop shared by both `find_best_move` |
| `deadline.dfy` | `Deadline` | the `time.time() - start_time > time_limit` test, as a sequence of answers |
| `alpha_beta.dfy` | `AlphaBeta` | `minimax`, `find_best_move` and `get_move` of `TicTacToeAi.py` |
| `negamax.dfy` | `Negamax` | `transposition_table`, `minimax`, `find_best_move` and `get_move` of `TicTacToeAi1.py` |

A `Deadline.Clock` is a fixed sequence `expired` of answers plus a count of
the tests made so far. Each visited node makes one test, except that in
`TicTacToeAi1.py` a node answered from the transposition table returns before
its test (`backend/TicTacToeAi1.py:139-142`). A clock with
`NeverExpires()` is a search that is never cut short; one with
`ExpiredFrom(k)` finds the time up at every test from the `k`-th on. Every
property not conditioned on one of these holds for every clock.

The shared helpers are cited once, at their lines in `backend/TicTacToeAi.py`.
The same code sits one line higher in `backend/TicTacToeAi1.py`, at lines
4-62.

## Model

| member | source | states |
|---|---|---|
| ExtendedInt.ExtInt.Max | backend/TicTacToeAi.py:122-123 | `max` of two sentinel-or-int values is one of them and bounds both |
| ExtendedInt.ExtInt.Min | backend/TicTacToeAi.py:133-134 | `min` is one of its arguments and is bounded by both |
| ExtendedInt.ExtInt.Neg | backend/TicTacToeAi1.py:154 | unary minus keeps finiteness, negates the value and swaps the infinities |
| ExtendedInt.LeTotalOrder | backend/TicTacToeAi.py:124 | the comparison on ints and infinities is a total order |
| ExtendedInt.NegReversesOrder | backend/TicTacToeAi1.py:154 | the window `(-beta, -alpha)`: negation is an involution and reverses the order |
| Grid.Place | backend/TicTacToeAi.py:119 | `board[i][j] = c` changes exactly that cell and keeps the board square |
| Grid.PlaceUndo | backend/TicTacToeAi.py:119-121 | writing `' '` back into a cell that was empty restores the board |
| Grid.Board.Mark | backend/TicTacToeAi.py:119 | the in-place write replaces the cells with `Place` of the old cells |
| Grid.MovesFrom | backend/TicTacToeAi.py:5-6 | the definition: the empty cells of row `i` from column `j` on, then those of every later row, left to right |
| Grid.MovesFromSound | backend/TicTacToeAi.py:5-6 | the comprehension from cell `(i, j)` on lists only empty in-bounds cells at or after `(i, j)` |
| Grid.MovesFromComplete | backend/TicTacToeAi.py:5-6 | it lists every empty cell at or after `(i, j)` |
| Grid.MovesFromSorted | backend/TicTacToeAi.py:5-6 | it lists them row by row, left to right |
| Grid.AvailableMoves | backend/TicTacToeAi.py:5-6 | every move returned is an empty cell of the board |
| Grid.AvailableMovesComplete | backend/TicTacToeAi.py:5-6 | every empty cell `(i, j)` with `0 <= i, j < size` is returned |
| Grid.AvailableMovesSorted | backend/TicTacToeAi.py:5-6 | the moves are in strictly increasing row-major order |
| Grid.AvailableMovesDistinct | backend/TicTacToeAi.py:5-6 | no move is returned twice |
| Grid.PlaceShrinksEmptyCells | backend/TicTacToeAi1.py:153-154 | marking an empty cell with a non-blank marker leaves exactly that cell fewer empty |
| Grid.PlaceBlankOnEmpty | backend/TicTacToeAi1.py:153 | writing `' '` into an empty cell (a blank mover) leaves the board as it was |
| Grid.OpponentOf | backend/TicTacToeAi.py:164 | the opponent is `'x'` or `'o'` and never the player's own marker |
| Winner.IsWinner | backend/TicTacToeAi.py:8-20 | the definition: a full row or a full column of the marker, or a down-right or up-right window of five in `range(size - 4)` |
| Winner.CheckWinner | backend/TicTacToeAi.py:8-20 | the loops return true exactly when some row or column is full of the marker, or some diagonal window of five is |
| Winner.IsWinnerSound | backend/TicTacToeAi.py:8-20 | on boards of size at least five, a detected win is five in a row in one of the four directions |
| Winner.IsWinnerOnFiveByFive | backend/TicTacToeAi.py:8-20 | on the 5-by-5 board `is_winner` holds exactly when there are five in a row |
| Winner.RowOfFiveMissedOnSixBySix | backend/TicTacToeAi.py:9-11 | on 6-by-6, five in a row along a row is not a win, because the whole row is required |
| Winner.FullRowWinsOnSmallBoard | backend/TicTacToeAi.py:9-11 | on a board smaller than five, a full row already wins |
| Patterns.Count | backend/TicTacToeAi.py:103 | `str.count`: left-to-right scan resuming after each match, `len + 1` for an empty pattern; the matches of a non-empty pattern fit in the line without overlap |
| Patterns.CountZeroIffAbsent | backend/TicTacToeAi.py:103 | `str.count` of a non-empty pattern is zero exactly when the pattern occurs nowhere |
| Patterns.CountAbsent | backend/TicTacToeAi.py:103 | a pattern holding a character the line lacks counts zero |
| Patterns.CountIsNonOverlapping | backend/TicTacToeAi.py:103 | matches do not overlap: `"xxx".count("xx") == 1` though `"xx"` occurs at 0 and 1 |
| Patterns.Insert | backend/TicTacToeAi.py:67-99 | one `key: value` item of a dict display adds only that item |
| Patterns.InsertDistinct | backend/TicTacToeAi.py:67-99 | the dict never holds a key twice |
| Patterns.InsertKeeps | backend/TicTacToeAi.py:67-99 | the new item is present, and so is every item with another key |
| Patterns.InsertFresh | backend/TicTacToeAi.py:67-99 | a key not yet present is appended at the end of the iteration order |
| Patterns.Dict | backend/TicTacToeAi.py:67-99 | the dict's items come from the display and have distinct keys |
| Patterns.DictKeepsKeys | backend/TicTacToeAi.py:67-99 | every key of the display is a key of the dict |
| Patterns.DictOfDistinct | backend/TicTacToeAi.py:67-99 | a display without repeated keys yields its items unchanged and in order |
| Patterns.BaseEntries | backend/TicTacToeAi.py:68-98 | the 31 items of the base display, in source order, each key 4 or 5 characters long |
| Patterns.ExtraEntries | backend/TicTacToeAi1.py:100-124 | the 25 items the extended display adds after the base ones, in source order, keys 2 to 6 characters long |
| Patterns.Entries | backend/TicTacToeAi1.py:68-125 | the definition: the base display alone (`TicTacToeAi.py`), or the base rows followed by the extra rows (`TicTacToeAi1.py`) |
| Patterns.PatternTable | backend/TicTacToeAi1.py:68-125 | the dict of the display: distinct keys, items taken from the display, and every key of the display present |
| Patterns.LineScore | backend/TicTacToeAi.py:102-103 | the definition: the sum over the table's items of `line_str.count(pattern) * value` |
| Patterns.LineScorePermutation | backend/TicTacToeAi.py:102-103 | the line score does not depend on the order the dict yields its items |
| Patterns.LineScoreAtLeastZero | backend/TicTacToeAi.py:102-103 | if every penalised pattern holds the opponent marker, a line without it scores at least zero |
| Patterns.LineScoreAtMostZero | backend/TicTacToeAi.py:102-103 | if every rewarded pattern holds the player marker, a line without it scores at most zero |
| Patterns.BaseEntriesSigned | backend/TicTacToeAi.py:68-98 | each rewarded base pattern holds the player marker, each penalised one the opponent marker |
| Patterns.ExtraEntriesSigned | backend/TicTacToeAi1.py:100-124 | the same holds for the rows the extended table adds |
| Patterns.EntriesSigned | backend/TicTacToeAi1.py:69-124 | the same holds for both tables in full |
| Patterns.BaseEntriesOneSided | backend/TicTacToeAi.py:68-98 | each base pattern is player-and-blank with positive weight, or opponent-and-blank with negative weight |
| Patterns.ExtraEntriesMixed | backend/TicTacToeAi1.py:113 | the extended table is not one-sided: `opponent + ' ' + player*2` mixes both markers |
| Patterns.PatternTableSigned | backend/TicTacToeAi1.py:68-125 | whatever keys the display merges, the dict keeps every table's sign discipline |
| Patterns.PatternTableSigns | backend/TicTacToeAi1.py:64-133 | `evaluate_line` is at least 0 without opponent markers, at most 0 without player markers, and 0 on an all-blank line |
| Evaluation.Column | backend/TicTacToeAi.py:33-36 | the definition: column `col` read from row 0 down, as the inner loop appends it |
| Evaluation.Columns | backend/TicTacToeAi.py:33-37 | the definition: the columns `0 .. k - 1` in order |
| Evaluation.DiagonalCells | backend/TicTacToeAi.py:52-63 | the definition: the cells with `row - col == offset` (down-right) or `row + col == size - 1 + offset` (down-left), from the top row down; none for `abs(offset) >= size` |
| Evaluation.DiagonalsUpTo | backend/TicTacToeAi.py:45-47 | the definition: for each of the first `m` offsets from `-size + 1`, its down-right and then its down-left diagonal |
| Evaluation.Diagonals | backend/TicTacToeAi.py:45-47 | the definition: the diagonals of all `2 * size - 1` offsets of `range(-size + 1, size)` |
| Evaluation.LinesScore | backend/TicTacToeAi.py:30-49 | the definition: the sum of the line scores of a list of lines |
| Evaluation.ScoreWith | backend/TicTacToeAi.py:22-41 | the definition: 10000 if the player has won, else -10000 if the opponent has, else rows + columns + diagonals scored against a given table |
| Evaluation.Score | backend/TicTacToeAi.py:22-41 | the definition: `ScoreWith` against the dict the variant builds from the two markers |
| Evaluation.ScoreLine | backend/TicTacToeAi.py:101-104 | the loop over `patterns.items()` returns the sum of `count * value` |
| Evaluation.EvaluateLine | backend/TicTacToeAi.py:65-104 | `evaluate_line` returns the table score of the line, and has the sign bounds |
| Evaluation.GetDiagonal | backend/TicTacToeAi.py:52-63 | returns the cells of the diagonal of that offset, `size - abs(offset)` of them when the offset is in range |
| Evaluation.DiagonalsUpToScoreStep | backend/TicTacToeAi.py:45-49 | each offset adds the scores of its two diagonals |
| Evaluation.ScoreDiagonals | backend/TicTacToeAi.py:43-50 | the loop over `range(-size + 1, size)` adds the scores of every diagonal |
| Evaluation.EvaluateAllDiagonals | backend/TicTacToeAi.py:43-50 | `evaluate_all_diagonals` is the diagonal score against the variant's table |
| Evaluation.ScoreRowsAndColumns | backend/TicTacToeAi.py:28-37 | the row loop and the column-gathering loop add every row's and every column's score |
| Evaluation.EvaluateWith | backend/TicTacToeAi.py:22-41 | 10000 when the player has won (even if the opponent has too), -10000 when only the opponent has, otherwise rows + columns + diagonals |
| Evaluation.Evaluate | backend/TicTacToeAi.py:22-41 | `evaluate` is that value against the variant's table |
| Evaluation.AbsentNotWinner | backend/TicTacToeAi.py:8-13 | a marker not on the board has not won |
| Evaluation.DiagonalsUpToLength | backend/TicTacToeAi.py:45-47 | each offset contributes two diagonals |
| Evaluation.LineCount | backend/TicTacToeAi.py:30-39 | `evaluate` scores `6 * size - 2` lines: rows, columns and `2 * (2 * size - 1)` diagonals |
| Evaluation.DiagonalsUpToListsOffsets | backend/TicTacToeAi.py:45-47 | the two diagonals of offset `d` sit at positions `2 * (d + size - 1)` and the one after |
| Evaluation.DownDiagonalCovers | backend/TicTacToeAi.py:52-58 | every cell lies on a visited down-right diagonal, at the index the loop gives it |
| Evaluation.UpDiagonalCovers | backend/TicTacToeAi.py:52-62 | every cell lies on a visited down-left diagonal, at the index the loop gives it |
| Evaluation.DiagonalAvoids | backend/TicTacToeAi.py:52-63 | a diagonal holds only board cells |
| Evaluation.LinesAvoid | backend/TicTacToeAi.py:30-39 | a marker absent from the board is absent from every scored line |
| Evaluation.LinesScoreAtLeastZero | backend/TicTacToeAi.py:30-39 | the sum over lines without the opponent marker is at least zero |
| Evaluation.LinesScoreAtMostZero | backend/TicTacToeAi.py:30-39 | the sum over lines without the player marker is at most zero |
| Evaluation.ScoreSigns | backend/TicTacToeAi.py:22-41 | a board without opponent markers scores at least 0, one without player markers at most 0, one with neither exactly 0 |
| Choice.FirstArgMax | backend/TicTacToeAi.py:151-153 | the kept index holds a maximal value, and every earlier value is strictly smaller |
| Choice.FirstArgMaxSnoc | backend/TicTacToeAi.py:151-153 | one more value moves the choice only when it is strictly greater |
| Choice.KeepBest | backend/TicTacToeAi.py:151-153 | one step of `if move_value > best_value` keeps the first move of greatest value and its value |
| Deadline.StartedInOrderSnoc | backend/TicTacToeAi.py:147-150 | one more root move, searched from the next clock test on, keeps the searches in test order, and a move whose first test finds the time up keeps its cut-short value |
| Deadline.LateStart | backend/TicTacToeAi.py:145-150 | a root loop started after its deadline gets the cut-short value for every move |
| Deadline.Clock.TimeUp | backend/TicTacToeAi.py:107 | a time test gives the clock's next answer and counts one test |
| AlphaBeta.Terminal | backend/TicTacToeAi.py:113 | the definition: `abs(score) == 10000 or not available_moves or depth >= max_depth` |
| AlphaBeta.Mover | backend/TicTacToeAi.py:119-130 | the definition: the player's marker on maximising plies, the opponent's on minimising ones |
| AlphaBeta.ChildValue | backend/TicTacToeAi.py:118-120 | the definition: the unpruned value of the board after the mover plays the `k`-th available move, one ply deeper |
| AlphaBeta.MinimaxValue | backend/TicTacToeAi.py:106-137 | the unpruned reference: the static score at terminal boards, else the max (player to move) or min (opponent) of the children, the player marking on maximising plies |
| AlphaBeta.BestChildAttained | backend/TicTacToeAi.py:116-137 | once a child is scanned the running max/min is the value of one scanned child |
| AlphaBeta.MinimaxValueIsAChild | backend/TicTacToeAi.py:116-137 | the unpruned value of a non-terminal board equals one child's value, never an infinity |
| AlphaBeta.BestChild | backend/TicTacToeAi.py:116-137 | the unpruned best child value is finite once a child is scanned, and starts at `-inf` / `inf` |
| AlphaBeta.BestChildMonotone | backend/TicTacToeAi.py:122-134 | the best value bounds every child scanned so far, so a cutoff's bound holds for the whole loop |
| AlphaBeta.FailSoftFullWindow | backend/TicTacToeAi.py:149 | with the window `(-inf, inf)` a fail-soft value is exact |
| AlphaBeta.MaxStep | backend/TicTacToeAi.py:122-125 | `max_eval = max(...)`, `alpha = max(...)` keep the loop invariant or give a lower bound at the break |
| AlphaBeta.MinStep | backend/TicTacToeAi.py:133-136 | `min_eval = min(...)`, `beta = min(...)` keep the loop invariant or give an upper bound at the break |
| AlphaBeta.Minimax | backend/TicTacToeAi.py:106-137 | board restored; the static score once the time is up, at `abs(score) == 10000`, with no moves or at `depth >= max_depth`; otherwise fail-soft against the unpruned value |
| AlphaBeta.SearchChild | backend/TicTacToeAi.py:119-121 | place the mover's marker, search, clear: board restored, child value fail-soft in the window |
| AlphaBeta.MaxIteration | backend/TicTacToeAi.py:118-125 | one maximising iteration: the window and `max_eval` are updated, and a cutoff reports `beta <= alpha` |
| AlphaBeta.SearchMax | backend/TicTacToeAi.py:116-126 | the maximising branch is fail-soft against the best child value, and restores the board |
| AlphaBeta.MinIteration | backend/TicTacToeAi.py:129-136 | one minimising iteration, the mirror image |
| AlphaBeta.SearchMin | backend/TicTacToeAi.py:127-137 | the minimising branch is fail-soft against the best child value, and restores the board |
| AlphaBeta.StaticMoveValues | backend/TicTacToeAi.py:107-108 | one static score per move: what a root move gets when its first time test finds the time up |
| AlphaBeta.StaticMoveValuesAt | backend/TicTacToeAi.py:147-150 | position `k` holds the static score of the board after the `k`-th move |
| AlphaBeta.StaticRootValues | backend/TicTacToeAi.py:143-150 | one static score over the base table per available move |
| AlphaBeta.MoveValues | backend/TicTacToeAi.py:147-150 | one unpruned value per move |
| AlphaBeta.MoveValuesAt | backend/TicTacToeAi.py:147-150 | position `k` holds the unpruned value of the board after the `k`-th move |
| AlphaBeta.RootValues | backend/TicTacToeAi.py:143-150 | one value per available move |
| AlphaBeta.ScoreRootMove | backend/TicTacToeAi.py:148-150 | board restored and at least one time test made; if the child's first test finds the time up, the static score after the move; with no timeout, its exact unpruned value |
| AlphaBeta.RootSearch | backend/TicTacToeAi.py:141-155 | no move iff the board is full; else the first available move of greatest returned value. The moves are searched in clock-test order; a move whose first test finds the time up has its static score as value; a search started after the deadline compares the static scores; with no timeout, the unpruned values |
| AlphaBeta.FindBestMove | backend/TicTacToeAi.py:139-155 | the same over the base table: `StaticRootValues` once the deadline has passed at the start, `RootValues` when the clock never expires |
| AlphaBeta.GetMove | backend/TicTacToeAi.py:157-171 | `None` iff the board is full; otherwise that choice for `team_roles` against the other marker at depth 5, with the same statements on the values |
| Negamax.MoveValues | backend/TicTacToeAi1.py:176-179 | one static score per move |
| Negamax.MoveValuesAt | backend/TicTacToeAi1.py:176-179 | position `k` holds the static score after the `k`-th move |
| Negamax.StaticValues | backend/TicTacToeAi1.py:172-179 | one value per available move |
| Negamax.StaticScore | backend/TicTacToeAi1.py:146 | the definition: `evaluate` with the extended table |
| Negamax.Cutoff | backend/TicTacToeAi1.py:148 | the definition: `abs(score) == 10000 or not available_moves or depth == 0`, scored with the extended table |
| Negamax.TableValid | backend/TicTacToeAi1.py:148-165 | the definition: every stored value is finite and was stored by a search of non-zero depth, since a depth-0 call returns at :148-149 before the store at :165 |
| Negamax.Reuses | backend/TicTacToeAi1.py:139 | the definition: the board is a key of the table whose stored depth is at least `depth` |
| Negamax.NoDepthZeroEntry | backend/TicTacToeAi1.py:139 | the definition: no entry can answer a depth-0 call |
| Negamax.DepthZeroValue | backend/TicTacToeAi1.py:137-149 | the definition: what a depth-0 call returns: a reusable entry's value, else the static score, whatever the clock answers |
| Negamax.DepthZeroValues | backend/TicTacToeAi1.py:176-179 | one depth-0 value per move |
| Negamax.DepthZeroValuesAt | backend/TicTacToeAi1.py:176-179 | position `k` holds the depth-0 value of the board after the `k`-th move |
| Negamax.DepthZeroValuesStatic | backend/TicTacToeAi1.py:139 | with no entry of depth 0 or more, the depth-0 values are the static scores after each move |
| Negamax.Engine.Reusable | backend/TicTacToeAi1.py:139 | the definition: `Reuses` on the engine's table |
| Negamax.Engine.constructor | backend/TicTacToeAi1.py:135 | the table starts empty |
| Negamax.Engine.Minimax | backend/TicTacToeAi1.py:137-166 | a reusable entry answers without change; else the time test and the cutoffs give the static score without change; else the result is stored under the board with its depth. Board restored; no entry ever removed |
| Negamax.Engine.SearchChildren | backend/TicTacToeAi1.py:151-163 | at least one child is searched, so the value is finite; board restored; table only grows |
| Negamax.Engine.SearchChild | backend/TicTacToeAi1.py:153-155 | place, search with roles swapped and window `(-beta, -alpha)`, negate, clear: board restored, table only grows; the value is minus the child's reusable entry, or minus the child's static score from the opponent's side when the time is up or the child is cut off |
| Negamax.Engine.ScoreRootMove | backend/TicTacToeAi1.py:177-179 | a depth-0 call stores nothing and returns the board's depth-0 value: a reusable entry's value, else the static score after the move |
| Negamax.Engine.FindBestMove | backend/TicTacToeAi1.py:168-184 | table unchanged; no move iff the board is full; else the first available move of greatest returned value, for any clock and table, the values being `DepthZeroValues`; with no entry of depth >= 0, the static scores after each move |
| Negamax.Engine.GetMove | backend/TicTacToeAi1.py:186-200 | `None` iff the board is full; otherwise that choice for `team_roles` against the other marker, with the same values |

## Left out

- **Wall clock.** `time.time()` and `time_limit` are replaced by `Deadline.Clock`, an arbitrary sequence of answers. Only the never-expiring clock is related to the unpruned values.
- AlphaBeta.RootSearch: under a clock that expires inside a move's search (after that search's first test), the value that move gets is not specified; the contract then states only that it is compared with the others by the strict `>` of the root loop. The values are stated when the first test finds the time up (the static score) and when the clock never expires (the unpruned value).
- AlphaBeta.FindBestMove: the same gap as RootSearch, over the base table.
- AlphaBeta.GetMove: the same gap as RootSearch, over the base table at depth 5.
- **`random.randint` fallback.** The fallback in both `get_move` is proved unreachable, so no random choice is modelled.
- **`int(size)`.** This coercion is left out. `size` is a `nat`, and the board must be `size`-by-`size`.
- **`''.join(line)`.** This is the identity on a sequence of characters.
- **Floating point.** It appears only through the ±`float('inf')` sentinels, which `ExtendedInt` models. No other float arithmetic occurs.
- **Table lifetime and growth.** The process-wide transposition dict is the `transpositionTable` field of one `Negamax.Engine` object. Its unbounded growth is not modelled.
- **The HTTP/socket caller and the UI.** Neither is part of this model.
- **The pattern table is built once, not once per line.** `evaluate_line` builds its dict anew on each call (`backend/TicTacToeAi.py:67`, called at :31, :37 and :48-49). `Evaluation.Evaluate` and `Evaluation.EvaluateAllDiagonals` build it once per board and pass it to the line loops. `AlphaBeta` builds it once in `FindBestMove` and passes it down the search. The values are equal, because the dict depends only on the two markers.
- **Iteration steps as methods.** Each iteration of the `for move in available_moves` loops runs as a method of its own (`SearchChild`, `MaxIteration`, `MinIteration`, `ScoreRootMove`, `KeepBest`). The loop's control flow is unchanged.
- Negamax.Engine.Minimax: requires `depth >= 0` or at least one non-blank marker. With both markers blank and a negative depth, the recursion only ever writes `' '`, and it ends only when the clock runs out or when Python raises `RecursionError` (one frame per ply, default limit 1000). No call site passes a negative depth: `find_best_move` passes 0 (`backend/TicTacToeAi1.py:178`).
- Negamax.Engine.SearchChildren: states no value. It only states finiteness, board restoration and table growth. Values of searches with depth other than 0 are not related to a reference function; only the depth-0 root search, which `find_best_move` uses, is specified exactly.
- Negamax.Engine.FindBestMove: the returned values are the depth-0 values under the current table. Where an entry of depth >= 0 left by an earlier search answers, its stored value is whatever that search found, which is not specified (see SearchChildren).
- Negamax.Engine.SearchChild: the value of a child that is searched further (not reusable, time not up, not cut off) is not stated; only that the child's table entry is then written by that search (`Negamax.Engine.Minimax`).
- AlphaBeta.SearchMax: does not state that the result equals one searched child's returned value. The result is finite because its type is `int`.
- AlphaBeta.SearchMin: does not state that the result equals one searched child's returned value. The result is finite because its type is `int`.
