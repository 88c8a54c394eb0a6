/** The board shared by both search variants: an n-by-n grid of
    one-character cells (' ' for an empty cell, a player's marker otherwise),
    the moves available on it, and the in-place `board[i][j] = c` write. */
module Grid {

  /** The marker of an empty cell. */
  const Empty: char := ' '

  /** `g` is a `size`-by-`size` board. */
  predicate IsGrid(g: seq<seq<char>>, n: nat) {
    |g| == n && forall i :: 0 <= i < n ==> |g[i]| == n
  }

  /** A move is the coordinate pair `(i, j)` of a cell. */
  datatype Move = Move(row: int, col: int)

  predicate InBounds(m: Move, n: nat) {
    0 <= m.row < n && 0 <= m.col < n
  }

  /** Row-major order on cells. */
  predicate Before(a: Move, b: Move) {
    a.row < b.row || (a.row == b.row && a.col < b.col)
  }

  /** The moves are listed in strictly increasing row-major order. */
  predicate RowMajorSorted(ms: seq<Move>) {
    forall a, b :: 0 <= a < b < |ms| ==> Before(ms[a], ms[b])
  }

  /** `m` is the cell `(i, j)` or a later one in row-major order. */
  predicate AtOrAfter(m: Move, i: int, j: int) {
    m.row > i || (m.row == i && m.col >= j)
  }

  /** The board after `board[m.row][m.col] = c`. */
  function Place(g: seq<seq<char>>, n: nat, m: Move, c: char): (r: seq<seq<char>>)
    requires IsGrid(g, n) && InBounds(m, n)
    ensures IsGrid(r, n)
    ensures r[m.row][m.col] == c
    ensures forall i, j :: 0 <= i < n && 0 <= j < n && (i != m.row || j != m.col) ==> r[i][j] == g[i][j]
  {
    g[m.row := g[m.row][m.col := c]]
  }

  /** Writing `' '` back into a cell that was empty undoes a placement. */
  lemma PlaceUndo(g: seq<seq<char>>, n: nat, m: Move, c: char)
    requires IsGrid(g, n) && InBounds(m, n) && g[m.row][m.col] == Empty
    ensures Place(Place(g, n, m, c), n, m, Empty) == g
  {
    var h := Place(Place(g, n, m, c), n, m, Empty);
    assert h[m.row] == g[m.row];
  }

  /** Writing `' '` into a cell that is already empty changes nothing. */
  lemma PlaceBlankOnEmpty(g: seq<seq<char>>, n: nat, m: Move)
    requires IsGrid(g, n) && InBounds(m, n) && g[m.row][m.col] == Empty
    ensures Place(g, n, m, Empty) == g
  {
    assert Place(g, n, m, Empty)[m.row] == g[m.row];
  }

  /** The empty cells of row `i` from column `j` on, then those of every later row:
      the comprehension `[(i, j) for i in range(size) for j in range(size) if board[i][j] == ' ']`
      from cell `(i, j)` on. */
  function MovesFrom(g: seq<seq<char>>, n: nat, i: nat, j: nat): seq<Move>
    requires IsGrid(g, n) && i <= n && j <= n
    decreases n - i, n - j
  {
    if i == n then []
    else if j == n then MovesFrom(g, n, i + 1, 0)
    else (if g[i][j] == Empty then [Move(i, j)] else []) + MovesFrom(g, n, i, j + 1)
  }

  /** Every listed move is an empty cell at or after `(i, j)`. */
  lemma {:induction false} MovesFromSound(g: seq<seq<char>>, n: nat, i: nat, j: nat)
    requires IsGrid(g, n) && i <= n && j <= n
    ensures forall m :: m in MovesFrom(g, n, i, j) ==>
      InBounds(m, n) && g[m.row][m.col] == Empty && AtOrAfter(m, i, j)
    decreases n - i, n - j
  {
    if i == n {
    } else if j == n {
      MovesFromSound(g, n, i + 1, 0);
    } else {
      MovesFromSound(g, n, i, j + 1);
    }
  }

  /** Every empty cell at or after `(i, j)` is listed. */
  lemma {:induction false} MovesFromComplete(g: seq<seq<char>>, n: nat, i: nat, j: nat)
    requires IsGrid(g, n) && i <= n && j <= n
    ensures forall r, c :: 0 <= r < n && 0 <= c < n && g[r][c] == Empty && AtOrAfter(Move(r, c), i, j) ==>
      Move(r, c) in MovesFrom(g, n, i, j)
    decreases n - i, n - j
  {
    if i == n {
    } else if j == n {
      MovesFromComplete(g, n, i + 1, 0);
    } else {
      MovesFromComplete(g, n, i, j + 1);
    }
  }

  /** The moves come in row-major order. */
  lemma {:induction false} MovesFromSorted(g: seq<seq<char>>, n: nat, i: nat, j: nat)
    requires IsGrid(g, n) && i <= n && j <= n
    ensures RowMajorSorted(MovesFrom(g, n, i, j))
    decreases n - i, n - j
  {
    if i == n {
    } else if j == n {
      MovesFromSorted(g, n, i + 1, 0);
    } else {
      MovesFromSorted(g, n, i, j + 1);
      var rest := MovesFrom(g, n, i, j + 1);
      if g[i][j] == Empty {
        MovesFromSound(g, n, i, j + 1);
        var ms := [Move(i, j)] + rest;
        forall a, b | 0 <= a < b < |ms| ensures Before(ms[a], ms[b]) {
          if a > 0 {
            assert ms[a] == rest[a - 1] && ms[b] == rest[b - 1];
          } else {
            assert ms[b] == rest[b - 1];
            assert ms[b] in rest;
          }
        }
      }
    }
  }

  /** `get_available_moves`: empty cells only (completeness and order are
      the lemmas below). */
  function AvailableMoves(g: seq<seq<char>>, n: nat): (moves: seq<Move>)
    requires IsGrid(g, n)
    ensures forall m :: m in moves ==> InBounds(m, n) && g[m.row][m.col] == Empty
  {
    MovesFromSound(g, n, 0, 0);
    MovesFrom(g, n, 0, 0)
  }

  /** Every empty cell of the board is an available move. */
  lemma AvailableMovesComplete(g: seq<seq<char>>, n: nat)
    requires IsGrid(g, n)
    ensures forall i, j :: 0 <= i < n && 0 <= j < n && g[i][j] == Empty ==> Move(i, j) in AvailableMoves(g, n)
  {
    MovesFromComplete(g, n, 0, 0);
  }

  /** The moves come in the order of the two nested loops: row by row, left to right. */
  lemma AvailableMovesSorted(g: seq<seq<char>>, n: nat)
    requires IsGrid(g, n)
    ensures RowMajorSorted(AvailableMoves(g, n))
  {
    MovesFromSorted(g, n, 0, 0);
  }

  /** Sorted in row-major order implies no move is listed twice. */
  lemma AvailableMovesDistinct(g: seq<seq<char>>, n: nat)
    requires IsGrid(g, n)
    ensures var moves := AvailableMoves(g, n);
      forall a, b :: 0 <= a < |moves| && 0 <= b < |moves| && a != b ==> moves[a] != moves[b]
  {
    var moves := AvailableMoves(g, n);
    AvailableMovesSorted(g, n);
    forall a, b | 0 <= a < |moves| && 0 <= b < |moves| && a != b ensures moves[a] != moves[b] {
      if a < b { assert Before(moves[a], moves[b]); } else { assert Before(moves[b], moves[a]); }
    }
  }

  /** The set of empty cells; its size is the termination measure of the searches. */
  ghost function EmptyCells(g: seq<seq<char>>, n: nat): set<Move>
    requires IsGrid(g, n)
  {
    set i, j | 0 <= i < n && 0 <= j < n && g[i][j] == Empty :: Move(i, j)
  }

  /** Marking an empty cell with a non-blank marker leaves one empty cell fewer. */
  lemma PlaceShrinksEmptyCells(g: seq<seq<char>>, n: nat, m: Move, c: char)
    requires IsGrid(g, n) && InBounds(m, n) && g[m.row][m.col] == Empty && c != Empty
    ensures EmptyCells(Place(g, n, m, c), n) == EmptyCells(g, n) - {m}
    ensures |EmptyCells(Place(g, n, m, c), n)| == |EmptyCells(g, n)| - 1
  {
    var h := Place(g, n, m, c);
    assert m in EmptyCells(g, n);
    forall x ensures x in EmptyCells(h, n) <==> x in EmptyCells(g, n) - {m} {
      if x in EmptyCells(h, n) {
        assert h[x.row][x.col] == Empty;
      }
      if x in EmptyCells(g, n) - {m} {
        assert h[x.row][x.col] == Empty;
      }
    }
  }

  /** `get_move`'s choice of the other side: `'x' if team_roles == 'o' else 'o'`. */
  function OpponentOf(role: char): (opponent: char)
    ensures opponent != role
    ensures opponent == 'x' || opponent == 'o'
  {
    if role == 'o' then 'x' else 'o'
  }

  /** The board the caller passes in and the search updates in place. */
  class Board {
    const size: nat
    var cells: seq<seq<char>>

    ghost predicate Valid()
      reads this
    {
      IsGrid(cells, size)
    }

    constructor (size: nat, cells: seq<seq<char>>)
      requires IsGrid(cells, size)
      ensures Valid()
      ensures this.size == size && this.cells == cells
    {
      this.size := size;
      this.cells := cells;
    }

    /** `board[m[0]][m[1]] = c`. */
    method Mark(m: Move, c: char)
      requires Valid() && InBounds(m, size)
      modifies this
      ensures Valid()
      ensures cells == Place(old(cells), size, m, c)
    {
      cells := cells[m.row := cells[m.row][m.col := c]];
    }
  }
}
