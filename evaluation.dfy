/** `evaluate`, `evaluate_all_diagonals`, `get_diagonal` and `evaluate_line`:
    the static score of a board. A win for the player scores 10000, a win for
    the opponent -10000; otherwise every row, every column and both
    diagonals of every offset are scored against the pattern table and the
    scores are added up. */
module Evaluation {
  import opened Grid
  import opened Winner
  import opened Patterns

  /** The score of a board won by the player; its negation is the score of a
      board won by the opponent. */
  const WinScore: int := 10000

  function MaxInt(a: int, b: int): int { if a < b then b else a }
  function MinInt(a: int, b: int): int { if a < b then a else b }
  function Abs(a: int): nat { if a < 0 then -a else a }

  /** Column `c` read top to bottom. */
  function Column(g: seq<seq<char>>, n: nat, c: int): seq<char>
    requires IsGrid(g, n) && 0 <= c < n
  {
    seq(n, r requires 0 <= r < n => g[r][c])
  }

  /** The first `k` columns. */
  function Columns(g: seq<seq<char>>, n: nat, k: nat): seq<seq<char>>
    requires IsGrid(g, n) && k <= n
  {
    seq(k, c requires 0 <= c < k => Column(g, n, c))
  }

  /** The diagonal of offset `d`, read from its top row down: going down and to
      the right it holds the cells with `row - col == d`; going down and to the
      left (`down == false`) those with `row + col == size - 1 + d`. Offsets of
      `size` or more in absolute value have no cells. */
  function DiagonalCells(g: seq<seq<char>>, n: nat, d: int, down: bool): seq<char>
    requires IsGrid(g, n)
  {
    if d + n <= 0 || d >= n then []
    else
      var s := MaxInt(0, d);
      seq(n - Abs(d), k requires 0 <= k < n - Abs(d) =>
        if down then g[s + k][s + k - d] else g[s + k][n - 1 - (s + k - d)])
  }

  /** The diagonals of the first `m` offsets `-size + 1, -size + 2, ...`, each
      offset contributing its down-right diagonal and then its down-left one. */
  function DiagonalsUpTo(g: seq<seq<char>>, n: nat, m: nat): seq<seq<char>>
    requires IsGrid(g, n)
  {
    if m == 0 then []
    else
      var d := m - 1 - (n - 1);
      DiagonalsUpTo(g, n, m - 1) + [DiagonalCells(g, n, d, true), DiagonalCells(g, n, d, false)]
  }

  /** The number of offsets in `range(-size + 1, size)`. */
  function OffsetCount(n: nat): nat {
    if n == 0 then 0 else 2 * n - 1
  }

  /** Every diagonal `evaluate_all_diagonals` scores. */
  function Diagonals(g: seq<seq<char>>, n: nat): seq<seq<char>>
    requires IsGrid(g, n)
  {
    DiagonalsUpTo(g, n, OffsetCount(n))
  }

  /** The sum of the line scores of `lines`. */
  function LinesScore(lines: seq<seq<char>>, t: Table): int {
    if lines == [] then 0
    else LinesScore(lines[..|lines| - 1], t) + LineScore(lines[|lines| - 1], t)
  }

  /** The value `evaluate` returns when `evaluate_line` scores against the
      table `t`. */
  function ScoreWith(g: seq<seq<char>>, n: nat, t: Table, p: char, o: char): int
    requires IsGrid(g, n)
  {
    if IsWinner(g, n, p) then WinScore
    else if IsWinner(g, n, o) then -WinScore
    else LinesScore(g, t) + LinesScore(Columns(g, n, n), t) + LinesScore(Diagonals(g, n), t)
  }

  /** The value `evaluate(board, size, player, opponent)` returns. */
  function Score(g: seq<seq<char>>, n: nat, v: Variant, p: char, o: char): int
    requires IsGrid(g, n)
  {
    ScoreWith(g, n, PatternTable(v, p, o), p, o)
  }

  lemma {:induction false} LinesScoreAppend(a: seq<seq<char>>, b: seq<seq<char>>, t: Table)
    ensures LinesScore(a + b, t) == LinesScore(a, t) + LinesScore(b, t)
    decreases |b|
  {
    if b == [] {
      assert a + b == a;
    } else {
      var b' := b[..|b| - 1];
      assert (a + b)[..|a + b| - 1] == a + b';
      LinesScoreAppend(a, b', t);
    }
  }

  lemma LinesScoreSnoc(lines: seq<seq<char>>, line: seq<char>, t: Table)
    ensures LinesScore(lines + [line], t) == LinesScore(lines, t) + LineScore(line, t)
  {
    assert (lines + [line])[..|lines|] == lines;
  }

  /** The loop of `evaluate_line` over `patterns.items()`, adding
      `line_str.count(pattern) * value` for each item. */
  method ScoreLine(line: seq<char>, patterns: Table) returns (score: int)
    ensures score == LineScore(line, patterns)
  {
    score := 0;
    var k := 0;
    while k < |patterns|
      invariant 0 <= k <= |patterns|
      invariant score == LineScore(line, patterns[..k])
    {
      assert patterns[..k + 1][..k] == patterns[..k];
      score := score + Count(line, patterns[k].0) * patterns[k].1;
      k := k + 1;
    }
    assert patterns[..k] == patterns;
  }

  /** `evaluate_line(line, player, opponent)`: the line scored against the
      variant's pattern table. A line without opponent markers scores at least
      zero; one without player markers at most zero. */
  method EvaluateLine(line: seq<char>, v: Variant, p: char, o: char) returns (score: int)
    ensures score == LineScore(line, PatternTable(v, p, o))
    ensures o !in line ==> score >= 0
    ensures p !in line ==> score <= 0
  {
    score := ScoreLine(line, PatternTable(v, p, o));
    PatternTableSigns(line, v, p, o);
  }

  /** `get_diagonal(board, size, offset, top_left_to_bottom_right)`: the loop over
      `range(max(0, offset), min(size, size + offset))` collecting the cells
      that fall on the board. */
  method GetDiagonal(g: seq<seq<char>>, n: nat, offset: int, down: bool) returns (diagonal: seq<char>)
    requires IsGrid(g, n)
    ensures diagonal == DiagonalCells(g, n, offset, down)
    ensures 0 < offset + n && offset < n ==> |diagonal| == n - Abs(offset)
  {
    ghost var spec := DiagonalCells(g, n, offset, down);
    diagonal := [];
    var lo := MaxInt(0, offset);
    var hi := MinInt(n, n + offset);
    var i := lo;
    while i < hi
      invariant lo <= i
      invariant i <= hi || i == lo
      invariant hi <= lo ==> spec == []
      invariant hi > lo ==> |spec| == hi - lo
      invariant i - lo <= |spec|
      invariant diagonal == spec[..i - lo]
    {
      if down {
        var j := i - offset;
        if 0 <= j < n {
          diagonal := diagonal + [g[i][j]];
        }
      } else {
        var j := n - 1 - (i - offset);
        if 0 <= j < n {
          diagonal := diagonal + [g[i][j]];
        }
      }
      assert spec[..i + 1 - lo] == spec[..i - lo] + [spec[i - lo]];
      i := i + 1;
    }
    assert spec[..i - lo] == spec;
  }

  /** One more offset `d` adds the scores of its two diagonals. */
  lemma DiagonalsUpToScoreStep(g: seq<seq<char>>, n: nat, m: nat, d: int, t: Table)
    requires IsGrid(g, n) && d == m - (n - 1)
    ensures LinesScore(DiagonalsUpTo(g, n, m + 1), t) ==
      LinesScore(DiagonalsUpTo(g, n, m), t) + LineScore(DiagonalCells(g, n, d, true), t) + LineScore(DiagonalCells(g, n, d, false), t)
  {
    var before := DiagonalsUpTo(g, n, m);
    var d1, d2 := DiagonalCells(g, n, d, true), DiagonalCells(g, n, d, false);
    assert DiagonalsUpTo(g, n, m + 1) == (before + [d1]) + [d2];
    LinesScoreSnoc(before, d1, t);
    LinesScoreSnoc(before + [d1], d2, t);
  }

  /** The loop of `evaluate_all_diagonals` over `range(-size + 1, size)`:
      both diagonals of every offset, scored against `patterns` and added up. */
  method ScoreDiagonals(g: seq<seq<char>>, n: nat, patterns: Table) returns (score: int)
    requires IsGrid(g, n)
    ensures score == LinesScore(Diagonals(g, n), patterns)
  {
    score := 0;
    var d := 1 - (n as int);
    ghost var m: nat := 0;
    while d < n
      invariant m == d + n - 1
      invariant n >= 1 ==> m <= OffsetCount(n)
      invariant n == 0 ==> d == 1
      invariant score == LinesScore(DiagonalsUpTo(g, n, m), patterns)
    {
      var diagonal1 := GetDiagonal(g, n, d, true);
      var diagonal2 := GetDiagonal(g, n, d, false);
      var s1 := ScoreLine(diagonal1, patterns);
      var s2 := ScoreLine(diagonal2, patterns);
      DiagonalsUpToScoreStep(g, n, m, d, patterns);
      score := score + s1 + s2;
      d := d + 1;
      m := m + 1;
    }
  }

  /** `evaluate_all_diagonals(board, size, player, opponent)`. */
  method EvaluateAllDiagonals(g: seq<seq<char>>, n: nat, v: Variant, p: char, o: char) returns (score: int)
    requires IsGrid(g, n)
    ensures score == LinesScore(Diagonals(g, n), PatternTable(v, p, o))
  {
    score := ScoreDiagonals(g, n, PatternTable(v, p, o));
  }

  /** The two loops of `evaluate` over the rows and over the columns, each
      column gathered cell by cell, scored against `patterns`. */
  method ScoreRowsAndColumns(g: seq<seq<char>>, n: nat, patterns: Table) returns (score: int)
    requires IsGrid(g, n)
    ensures score == LinesScore(g, patterns) + LinesScore(Columns(g, n, n), patterns)
  {
    score := 0;
    var r := 0;
    while r < n
      invariant 0 <= r <= n
      invariant score == LinesScore(g[..r], patterns)
    {
      var s := ScoreLine(g[r], patterns);
      assert g[..r + 1] == g[..r] + [g[r]];
      LinesScoreSnoc(g[..r], g[r], patterns);
      score := score + s;
      r := r + 1;
    }
    assert g[..n] == g;
    ghost var rowsScore := score;
    var col := 0;
    while col < n
      invariant 0 <= col <= n
      invariant score == rowsScore + LinesScore(Columns(g, n, col), patterns)
    {
      var column: seq<char> := [];
      var row := 0;
      while row < n
        invariant 0 <= row <= n
        invariant column == Column(g, n, col)[..row]
      {
        column := column + [g[row][col]];
        row := row + 1;
      }
      assert column == Column(g, n, col);
      var s := ScoreLine(column, patterns);
      assert Columns(g, n, col + 1) == Columns(g, n, col) + [column];
      LinesScoreSnoc(Columns(g, n, col), column, patterns);
      score := score + s;
      col := col + 1;
    }
  }

  /** The body of `evaluate(board, size, player, opponent)` with
      `evaluate_line` scoring against `patterns`: the two win tests, then the
      rows, the columns and the diagonals. */
  method EvaluateWith(g: seq<seq<char>>, n: nat, patterns: Table, p: char, o: char) returns (score: int)
    requires IsGrid(g, n)
    ensures score == ScoreWith(g, n, patterns, p, o)
  {
    var playerWon := CheckWinner(g, n, p);
    if playerWon {
      return WinScore;
    }
    var opponentWon := CheckWinner(g, n, o);
    if opponentWon {
      return -WinScore;
    }
    score := ScoreRowsAndColumns(g, n, patterns);
    var diagonals := ScoreDiagonals(g, n, patterns);
    score := score + diagonals;
  }

  /** `evaluate(board, size, player, opponent)`: the board scored against the
      variant's pattern table. */
  method Evaluate(g: seq<seq<char>>, n: nat, v: Variant, p: char, o: char) returns (score: int)
    requires IsGrid(g, n)
    ensures score == Score(g, n, v, p, o)
  {
    score := EvaluateWith(g, n, PatternTable(v, p, o), p, o);
  }

  /** No cell of the board holds `c`. */
  predicate Absent(g: seq<seq<char>>, n: nat, c: char)
    requires IsGrid(g, n)
  {
    forall i, j :: 0 <= i < n && 0 <= j < n ==> g[i][j] != c
  }

  /** A marker that is nowhere on the board has not won. */
  lemma AbsentNotWinner(g: seq<seq<char>>, n: nat, c: char)
    requires IsGrid(g, n) && Absent(g, n, c)
    ensures !IsWinner(g, n, c)
  {
    forall i | 0 <= i < n ensures !RowFull(g, n, i, c) && !ColumnFull(g, n, i, c) {
      assert g[i][0] != c && g[0][i] != c;
    }
  }

  /** Two diagonals per offset. */
  lemma {:induction false} DiagonalsUpToLength(g: seq<seq<char>>, n: nat, m: nat)
    requires IsGrid(g, n)
    ensures |DiagonalsUpTo(g, n, m)| == 2 * m
  {
    if m > 0 {
      DiagonalsUpToLength(g, n, m - 1);
    }
  }

  /** `evaluate` scores `6 * size - 2` lines: `size` rows, `size` columns and
      the two diagonals of each of the `2 * size - 1` offsets. */
  lemma LineCount(g: seq<seq<char>>, n: nat)
    requires IsGrid(g, n) && n >= 1
    ensures |g| + |Columns(g, n, n)| + |Diagonals(g, n)| == 6 * n - 2
  {
    DiagonalsUpToLength(g, n, OffsetCount(n));
  }

  /** The diagonals of offset `d` sit at positions `2 * (d + size - 1)` (down
      and to the right) and the one after it (down and to the left). */
  lemma {:induction false} DiagonalsUpToListsOffsets(g: seq<seq<char>>, n: nat, m: nat, d: int)
    requires IsGrid(g, n) && 0 <= d + n - 1 < m
    ensures |DiagonalsUpTo(g, n, m)| == 2 * m
    ensures DiagonalsUpTo(g, n, m)[2 * (d + n - 1)] == DiagonalCells(g, n, d, true)
    ensures DiagonalsUpTo(g, n, m)[2 * (d + n - 1) + 1] == DiagonalCells(g, n, d, false)
  {
    DiagonalsUpToLength(g, n, m);
    if d + n - 1 < m - 1 {
      DiagonalsUpToListsOffsets(g, n, m - 1, d);
      DiagonalsUpToLength(g, n, m - 1);
    }
  }

  /** Cell `(i, j)` lies on the down-right diagonal of offset `i - j`, which
      `evaluate_all_diagonals` visits. */
  lemma DownDiagonalCovers(g: seq<seq<char>>, n: nat, i: int, j: int)
    requires IsGrid(g, n) && 0 <= i < n && 0 <= j < n
    ensures var d := i - j;
      var k := i - MaxInt(0, d);
      0 <= k < |DiagonalCells(g, n, d, true)| && DiagonalCells(g, n, d, true)[k] == g[i][j] &&
      DiagonalCells(g, n, d, true) in Diagonals(g, n)
  {
    var d := i - j;
    var k := i - MaxInt(0, d);
    var diagonal := DiagonalCells(g, n, d, true);
    assert |diagonal| == n - Abs(d);
    assert diagonal[k] == g[i][j];
    DiagonalsUpToListsOffsets(g, n, OffsetCount(n), d);
  }

  /** Cell `(i, j)` lies on the down-left diagonal of offset
      `i + j - (size - 1)`, which `evaluate_all_diagonals` visits. */
  lemma UpDiagonalCovers(g: seq<seq<char>>, n: nat, i: int, j: int)
    requires IsGrid(g, n) && 0 <= i < n && 0 <= j < n
    ensures var d := i + j - (n - 1);
      var k := i - MaxInt(0, d);
      0 <= k < |DiagonalCells(g, n, d, false)| && DiagonalCells(g, n, d, false)[k] == g[i][j] &&
      DiagonalCells(g, n, d, false) in Diagonals(g, n)
  {
    var d := i + j - (n - 1);
    var k := i - MaxInt(0, d);
    var diagonal := DiagonalCells(g, n, d, false);
    assert |diagonal| == n - Abs(d);
    assert diagonal[k] == g[i][j];
    DiagonalsUpToListsOffsets(g, n, OffsetCount(n), d);
  }

  /** The cells of a diagonal are cells of the board. */
  lemma DiagonalAvoids(g: seq<seq<char>>, n: nat, d: int, down: bool, c: char)
    requires IsGrid(g, n) && Absent(g, n, c)
    ensures c !in DiagonalCells(g, n, d, down)
  {
    var diag := DiagonalCells(g, n, d, down);
    assert forall k :: 0 <= k < |diag| ==> diag[k] != c;
  }

  lemma {:induction false} DiagonalsUpToAvoid(g: seq<seq<char>>, n: nat, m: nat, c: char)
    requires IsGrid(g, n) && Absent(g, n, c)
    ensures forall line :: line in DiagonalsUpTo(g, n, m) ==> c !in line
  {
    if m > 0 {
      var d := m - 1 - (n - 1);
      DiagonalsUpToAvoid(g, n, m - 1, c);
      DiagonalAvoids(g, n, d, true, c);
      DiagonalAvoids(g, n, d, false, c);
    }
  }

  /** A marker absent from the board is absent from every line `evaluate` scores. */
  lemma LinesAvoid(g: seq<seq<char>>, n: nat, c: char)
    requires IsGrid(g, n) && Absent(g, n, c)
    ensures forall line :: line in g ==> c !in line
    ensures forall line :: line in Columns(g, n, n) ==> c !in line
    ensures forall line :: line in Diagonals(g, n) ==> c !in line
  {
    forall line | line in g ensures c !in line {
      var i :| 0 <= i < n && g[i] == line;
      assert forall j :: 0 <= j < n ==> line[j] != c;
    }
    forall line | line in Columns(g, n, n) ensures c !in line {
      var k :| 0 <= k < n && Columns(g, n, n)[k] == line;
      assert forall r :: 0 <= r < n ==> line[r] != c;
    }
    DiagonalsUpToAvoid(g, n, OffsetCount(n), c);
  }

  lemma {:induction false} LinesScoreAtLeastZero(lines: seq<seq<char>>, t: Table, o: char)
    requires forall e :: e in t && e.1 < 0 ==> o in e.0
    requires forall line :: line in lines ==> o !in line
    ensures LinesScore(lines, t) >= 0
    decreases |lines|
  {
    if lines != [] {
      assert lines[|lines| - 1] in lines;
      LinesScoreAtLeastZero(lines[..|lines| - 1], t, o);
      LineScoreAtLeastZero(lines[|lines| - 1], t, o);
    }
  }

  lemma {:induction false} LinesScoreAtMostZero(lines: seq<seq<char>>, t: Table, p: char)
    requires forall e :: e in t && e.1 > 0 ==> p in e.0
    requires forall line :: line in lines ==> p !in line
    ensures LinesScore(lines, t) <= 0
    decreases |lines|
  {
    if lines != [] {
      assert lines[|lines| - 1] in lines;
      LinesScoreAtMostZero(lines[..|lines| - 1], t, p);
      LineScoreAtMostZero(lines[|lines| - 1], t, p);
    }
  }

  /** A board without opponent markers scores at least zero, one without
      player markers at most zero, and one with neither (the empty board, when
      both markers are non-blank) exactly zero. */
  lemma ScoreSigns(g: seq<seq<char>>, n: nat, v: Variant, p: char, o: char)
    requires IsGrid(g, n)
    ensures Absent(g, n, o) ==> Score(g, n, v, p, o) >= 0
    ensures Absent(g, n, p) ==> Score(g, n, v, p, o) <= 0
    ensures Absent(g, n, p) && Absent(g, n, o) ==> Score(g, n, v, p, o) == 0
  {
    var t := PatternTable(v, p, o);
    PatternTableSigned(v, p, o);
    if Absent(g, n, o) {
      AbsentNotWinner(g, n, o);
      LinesAvoid(g, n, o);
      LinesScoreAtLeastZero(g, t, o);
      LinesScoreAtLeastZero(Columns(g, n, n), t, o);
      LinesScoreAtLeastZero(Diagonals(g, n), t, o);
    }
    if Absent(g, n, p) {
      AbsentNotWinner(g, n, p);
      LinesAvoid(g, n, p);
      LinesScoreAtMostZero(g, t, p);
      LinesScoreAtMostZero(Columns(g, n, n), t, p);
      LinesScoreAtMostZero(Diagonals(g, n), t, p);
    }
  }
}
