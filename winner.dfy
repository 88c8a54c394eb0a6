/** `is_winner`: the terminal test of both search variants. Rows and columns
    only count when the WHOLE line carries the marker; the two diagonal
    directions are scanned with a sliding window of five. */
module Winner {
  import opened Grid

  /** `all(board[i][j] == player for j in range(size))` */
  predicate RowFull(g: seq<seq<char>>, n: nat, i: int, p: char)
    requires IsGrid(g, n) && 0 <= i < n
  {
    forall j :: 0 <= j < n ==> g[i][j] == p
  }

  /** `all(board[j][i] == player for j in range(size))` */
  predicate ColumnFull(g: seq<seq<char>>, n: nat, i: int, p: char)
    requires IsGrid(g, n) && 0 <= i < n
  {
    forall j :: 0 <= j < n ==> g[j][i] == p
  }

  /** `all(board[i+k][j+k] == player for k in range(5))`, the five terms written out */
  predicate DownWindow(g: seq<seq<char>>, n: nat, i: int, j: int, p: char)
    requires IsGrid(g, n) && 0 <= i < n - 4 && 0 <= j < n - 4
  {
    g[i][j] == p && g[i + 1][j + 1] == p && g[i + 2][j + 2] == p && g[i + 3][j + 3] == p && g[i + 4][j + 4] == p
  }

  /** `all(board[i+4-k][j+k] == player for k in range(5))`, the five terms written out */
  predicate UpWindow(g: seq<seq<char>>, n: nat, i: int, j: int, p: char)
    requires IsGrid(g, n) && 0 <= i < n - 4 && 0 <= j < n - 4
  {
    g[i + 4][j] == p && g[i + 3][j + 1] == p && g[i + 2][j + 2] == p && g[i + 1][j + 3] == p && g[i][j + 4] == p
  }

  /** `is_winner(board, size, player)`: the first loop returns True on a full row
      or column, the second on a diagonal window of five; otherwise False. */
  predicate IsWinner(g: seq<seq<char>>, n: nat, p: char)
    requires IsGrid(g, n)
  {
    (exists i :: 0 <= i < n && (RowFull(g, n, i, p) || ColumnFull(g, n, i, p))) ||
    (exists i, j :: 0 <= i < n - 4 && 0 <= j < n - 4 && (DownWindow(g, n, i, j, p) || UpWindow(g, n, i, j, p)))
  }

  /** The loops of `is_winner`: rows and columns first, then the diagonal
      windows, returning as soon as one is found. */
  method CheckWinner(g: seq<seq<char>>, n: nat, p: char) returns (won: bool)
    requires IsGrid(g, n)
    ensures won == IsWinner(g, n, p)
  {
    var i := 0;
    while i < n
      invariant 0 <= i <= n
      invariant forall k :: 0 <= k < i ==> !RowFull(g, n, k, p) && !ColumnFull(g, n, k, p)
    {
      if RowFull(g, n, i, p) {
        return true;
      }
      if ColumnFull(g, n, i, p) {
        return true;
      }
      i := i + 1;
    }
    i := 0;
    while i < n - 4
      invariant 0 <= i && (i <= n - 4 || i == 0)
      invariant forall a, b :: 0 <= a < i && 0 <= b < n - 4 ==> !DownWindow(g, n, a, b, p) && !UpWindow(g, n, a, b, p)
    {
      var j := 0;
      while j < n - 4
        invariant 0 <= j <= n - 4
        invariant forall a, b :: 0 <= a < i && 0 <= b < n - 4 ==> !DownWindow(g, n, a, b, p) && !UpWindow(g, n, a, b, p)
        invariant forall b :: 0 <= b < j ==> !DownWindow(g, n, i, b, p) && !UpWindow(g, n, i, b, p)
      {
        if DownWindow(g, n, i, j, p) {
          return true;
        }
        if UpWindow(g, n, i, j, p) {
          return true;
        }
        j := j + 1;
      }
      i := i + 1;
    }
    return false;
  }

  /** Five consecutive cells in row r from column c. */
  predicate RowRun(g: seq<seq<char>>, n: nat, r: int, c: int, p: char)
    requires IsGrid(g, n)
  {
    0 <= r < n && 0 <= c && c + 5 <= n && g[r][c] == p && g[r][c + 1] == p && g[r][c + 2] == p && g[r][c + 3] == p && g[r][c + 4] == p
  }

  /** Five consecutive cells in column c from row r. */
  predicate ColumnRun(g: seq<seq<char>>, n: nat, r: int, c: int, p: char)
    requires IsGrid(g, n)
  {
    0 <= c < n && 0 <= r && r + 5 <= n && g[r][c] == p && g[r + 1][c] == p && g[r + 2][c] == p && g[r + 3][c] == p && g[r + 4][c] == p
  }

  /** Five consecutive cells going down and right from (r, c). */
  predicate DownRun(g: seq<seq<char>>, n: nat, r: int, c: int, p: char)
    requires IsGrid(g, n)
  {
    0 <= r && r + 5 <= n && 0 <= c && c + 5 <= n && g[r][c] == p && g[r + 1][c + 1] == p && g[r + 2][c + 2] == p && g[r + 3][c + 3] == p && g[r + 4][c + 4] == p
  }

  /** Five consecutive cells going up and right from (r, c). */
  predicate UpRun(g: seq<seq<char>>, n: nat, r: int, c: int, p: char)
    requires IsGrid(g, n)
  {
    4 <= r < n && 0 <= c && c + 5 <= n && g[r][c] == p && g[r - 1][c + 1] == p && g[r - 2][c + 2] == p && g[r - 3][c + 3] == p && g[r - 4][c + 4] == p
  }

  /** The rule of the game: five of `p` in a row, in any of the four directions. */
  ghost predicate FiveInARow(g: seq<seq<char>>, n: nat, p: char)
    requires IsGrid(g, n)
  {
    exists r, c :: RowRun(g, n, r, c, p) || ColumnRun(g, n, r, c, p) || DownRun(g, n, r, c, p) || UpRun(g, n, r, c, p)
  }

  /** On boards of at least five, a detected win is a real five in a row. */
  lemma IsWinnerSound(g: seq<seq<char>>, n: nat, p: char)
    requires IsGrid(g, n) && n >= 5
    ensures IsWinner(g, n, p) ==> FiveInARow(g, n, p)
  {
    if IsWinner(g, n, p) {
      if i :| 0 <= i < n && (RowFull(g, n, i, p) || ColumnFull(g, n, i, p)) {
        if RowFull(g, n, i, p) {
          assert RowRun(g, n, i, 0, p);
        } else {
          assert ColumnRun(g, n, 0, i, p);
        }
      } else {
        var i, j :| 0 <= i < n - 4 && 0 <= j < n - 4 && (DownWindow(g, n, i, j, p) || UpWindow(g, n, i, j, p));
        if DownWindow(g, n, i, j, p) {
          assert DownRun(g, n, i, j, p);
        } else {
          assert UpRun(g, n, i + 4, j, p);
        }
      }
    }
  }

  /** On the 5-by-5 board `is_winner` is exactly "five in a row". */
  lemma IsWinnerOnFiveByFive(g: seq<seq<char>>, p: char)
    requires IsGrid(g, 5)
    ensures IsWinner(g, 5, p) <==> FiveInARow(g, 5, p)
  {
    IsWinnerSound(g, 5, p);
    if FiveInARow(g, 5, p) {
      var r, c :| RowRun(g, 5, r, c, p) || ColumnRun(g, 5, r, c, p) || DownRun(g, 5, r, c, p) || UpRun(g, 5, r, c, p);
      if RowRun(g, 5, r, c, p) {
        assert RowFull(g, 5, r, p) by {
          forall j | 0 <= j < 5 ensures g[r][j] == p { assert c == 0; }
        }
      } else if ColumnRun(g, 5, r, c, p) {
        assert ColumnFull(g, 5, c, p) by {
          forall j | 0 <= j < 5 ensures g[j][c] == p { assert r == 0; }
        }
      } else if DownRun(g, 5, r, c, p) {
        assert DownWindow(g, 5, 0, 0, p);
      } else {
        assert UpWindow(g, 5, 0, 0, p);
      }
    }
  }

  /** On a 6-by-6 board five in a row along a row is not detected, because
      `is_winner` needs the whole row. */
  lemma RowOfFiveMissedOnSixBySix()
    ensures var g := [ ['x', 'x', 'x', 'x', 'x', ' '],
                       [' ', ' ', ' ', ' ', ' ', ' '],
                       [' ', ' ', ' ', ' ', ' ', ' '],
                       [' ', ' ', ' ', ' ', ' ', ' '],
                       [' ', ' ', ' ', ' ', ' ', ' '],
                       [' ', ' ', ' ', ' ', ' ', ' '] ];
      IsGrid(g, 6) && FiveInARow(g, 6, 'x') && !IsWinner(g, 6, 'x')
  {
    var g := [ ['x', 'x', 'x', 'x', 'x', ' '],
               [' ', ' ', ' ', ' ', ' ', ' '],
               [' ', ' ', ' ', ' ', ' ', ' '],
               [' ', ' ', ' ', ' ', ' ', ' '],
               [' ', ' ', ' ', ' ', ' ', ' '],
               [' ', ' ', ' ', ' ', ' ', ' '] ];
    assert IsGrid(g, 6);
    assert RowRun(g, 6, 0, 0, 'x');
    forall i | 0 <= i < 6 ensures !RowFull(g, 6, i, 'x') && !ColumnFull(g, 6, i, 'x') {
      assert g[i][5] == ' ' && g[1][i] == ' ';
    }
    forall i, j | 0 <= i < 2 && 0 <= j < 2 ensures !DownWindow(g, 6, i, j, 'x') && !UpWindow(g, 6, i, j, 'x') {
      assert g[i + 1][j + 1] == ' ';
      assert g[i + 4][j] == ' ';
    }
  }

  /** On boards smaller than five a full row already counts as a win. */
  lemma FullRowWinsOnSmallBoard()
    ensures IsGrid([['x']], 1) && IsWinner([['x']], 1, 'x') && !FiveInARow([['x']], 1, 'x')
  {
    assert RowFull([['x']], 1, 0, 'x');
  }
}
