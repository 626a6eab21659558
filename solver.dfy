/**
 The backtracking solver and the solution counter. Both scan for the first
 empty cell in row-major order, try the digits 1..9 in ascending order at
 that cell, keep the digits that do not already occur in the cell's row,
 column or box, and recurse; each tentative digit is reset to 0 when its
 branch is abandoned.

 `Solutions(g)` lists, in the order this search reaches them, the full grids
 at the leaves of the search tree. `SolveSudoku` ends on its first element
 and `CountSolutions` counts its elements up to a cutoff.
 */
module Solver {
  import opened Board

  // ---------------------------------------------------------------------------
  // Specification

  /** The first empty cell at or after (r, c) in row-major order. */
  ghost function FirstEmptyFrom(g: Grid, r: int, c: int): (e: Option<(int, int)>)
    requires IsGrid(g) && 0 <= r <= 9 && 0 <= c <= 9
    ensures e.Some? ==> InRange(e.value.0, e.value.1) && g[e.value.0][e.value.1] == 0
    decreases 9 - r, 9 - c
  {
    if r == 9 then None
    else if c == 9 then FirstEmptyFrom(g, r + 1, 0)
    else if g[r][c] == 0 then Some((r, c))
    else FirstEmptyFrom(g, r, c + 1)
  }

  /** The first empty cell of `g` in row-major order, or None when `g` is full. */
  ghost function FirstEmpty(g: Grid): (e: Option<(int, int)>)
    requires IsGrid(g)
    ensures e.Some? ==> InRange(e.value.0, e.value.1) && g[e.value.0][e.value.1] == 0
  {
    FirstEmptyFrom(g, 0, 0)
  }

  /** The scan from (r, c) stops at the first empty cell it meets, and finds none only if there is none. */
  lemma {:induction false} FirstEmptyFromFirst(g: Grid, r: int, c: int)
    requires IsGrid(g) && 0 <= r <= 9 && 0 <= c <= 9
    ensures FirstEmptyFrom(g, r, c).Some? ==>
      var (er, ec) := FirstEmptyFrom(g, r, c).value;
      && !Before(er, ec, r, c)
      && forall i, j :: InRange(i, j) && !Before(i, j, r, c) && Before(i, j, er, ec) ==> g[i][j] != 0
    ensures FirstEmptyFrom(g, r, c).None? ==>
      forall i, j :: InRange(i, j) && !Before(i, j, r, c) ==> g[i][j] != 0
    decreases 9 - r, 9 - c
  {
    if r == 9 {
    } else if c == 9 {
      FirstEmptyFromFirst(g, r + 1, 0);
    } else if g[r][c] != 0 {
      FirstEmptyFromFirst(g, r, c + 1);
    }
  }

  /** FirstEmpty is None exactly on a full grid, and otherwise every earlier cell is filled. */
  lemma FirstEmptyFirst(g: Grid)
    requires IsGrid(g)
    ensures FirstEmpty(g).None? <==> Full(g)
    ensures FirstEmpty(g).Some? ==>
      var (r, c) := FirstEmpty(g).value;
      forall i, j :: InRange(i, j) && Before(i, j, r, c) ==> g[i][j] != 0
  {
    FirstEmptyFromFirst(g, 0, 0);
  }

  /** Digit `n` occurs nowhere in the row, the column or the box of (r, c), (r, c) included. */
  ghost predicate MoveAllowed(g: Grid, r: int, c: int, n: int)
    requires IsGrid(g)
  {
    forall p, q :: InRange(p, q) && InUnit(r, c, p, q) ==> g[p][q] != n
  }

  /** The number of empty cells among the first `k` cells in row-major order. */
  ghost function ZerosBelow(g: Grid, k: int): nat
    requires IsGrid(g) && 0 <= k <= 81
  {
    if k == 0 then 0
    else ZerosBelow(g, k - 1) + (if g[(k - 1) / 9][(k - 1) % 9] == 0 then 1 else 0)
  }

  /** The number of empty cells; the search terminates because it shrinks. */
  ghost function Zeros(g: Grid): nat
    requires IsGrid(g)
  {
    ZerosBelow(g, 81)
  }

  lemma {:induction false} ZerosBelowUpdate(g: Grid, r: int, c: int, d: int, k: int)
    requires IsGrid(g) && InRange(r, c) && g[r][c] == 0 && d != 0 && 0 <= k <= 81
    ensures ZerosBelow(Update(g, r, c, d), k) == ZerosBelow(g, k) - (if 9 * r + c < k then 1 else 0)
  {
    if k > 0 {
      ZerosBelowUpdate(g, r, c, d, k - 1);
      var i := k - 1;
      assert i == 9 * (i / 9) + i % 9;
      assert (i / 9, i % 9) == (r, c) <==> i == 9 * r + c;
    }
  }

  lemma ZerosShrink(g: Grid, r: int, c: int, d: int)
    requires IsGrid(g) && InRange(r, c) && g[r][c] == 0 && d != 0
    ensures Zeros(Update(g, r, c, d)) < Zeros(g)
  {
    ZerosBelowUpdate(g, r, c, d, 81);
  }

  /** The full grids the search reaches from `g`, in the order it reaches them. */
  ghost function Solutions(g: Grid): seq<Grid>
    requires IsGrid(g)
    decreases Zeros(g), 1, 0
  {
    match FirstEmpty(g)
    case None => [g]
    case Some((r, c)) => SolutionsFrom(g, r, c, 1)
  }

  /** The full grids reached by placing digits d..9 at the empty cell (r, c). */
  ghost function SolutionsFrom(g: Grid, r: int, c: int, d: int): seq<Grid>
    requires IsGrid(g) && InRange(r, c) && g[r][c] == 0 && 1 <= d <= 10
    decreases Zeros(g), 0, 10 - d
  {
    if d == 10 then []
    else
      var rest := SolutionsFrom(g, r, c, d + 1);
      if MoveAllowed(g, r, c, d) then
        ZerosShrink(g, r, c, d);
        Solutions(Update(g, r, c, d)) + rest
      else rest
  }

  lemma SolutionsFromUnfold(g: Grid, r: int, c: int, d: int)
    requires IsGrid(g) && InRange(r, c) && g[r][c] == 0 && 1 <= d <= 9
    ensures SolutionsFrom(g, r, c, d) ==
      (if MoveAllowed(g, r, c, d) then Solutions(Update(g, r, c, d)) else []) + SolutionsFrom(g, r, c, d + 1)
  {
  }

  lemma SolutionsStart(g: Grid, r: int, c: int)
    requires IsGrid(g) && FirstEmpty(g) == Some((r, c))
    ensures InRange(r, c) && g[r][c] == 0
    ensures Solutions(g) == SolutionsFrom(g, r, c, 1)
  {
  }

  lemma SolutionsEnd(g: Grid, r: int, c: int)
    requires IsGrid(g) && InRange(r, c) && g[r][c] == 0
    ensures SolutionsFrom(g, r, c, 10) == []
  {
  }

  lemma SolveStepFound(g: Grid, r: int, c: int, d: int)
    requires IsGrid(g) && InRange(r, c) && g[r][c] == 0 && 1 <= d <= 9
    requires MoveAllowed(g, r, c, d) && Solutions(Update(g, r, c, d)) != []
    ensures SolutionsFrom(g, r, c, d) != []
    ensures SolutionsFrom(g, r, c, d)[0] == Solutions(Update(g, r, c, d))[0]
  {
    SolutionsFromUnfold(g, r, c, d);
  }

  lemma SolveStepFailed(g: Grid, r: int, c: int, d: int)
    requires IsGrid(g) && InRange(r, c) && g[r][c] == 0 && 1 <= d <= 9
    requires !(MoveAllowed(g, r, c, d) && Solutions(Update(g, r, c, d)) != [])
    ensures SolutionsFrom(g, r, c, d) == SolutionsFrom(g, r, c, d + 1)
  {
    SolutionsFromUnfold(g, r, c, d);
  }

  lemma CountStepSplit(g: Grid, r: int, c: int, d: int) returns (n: int)
    requires IsGrid(g) && InRange(r, c) && g[r][c] == 0 && 1 <= d <= 9
    ensures MoveAllowed(g, r, c, d) ==> n == |Solutions(Update(g, r, c, d))|
    ensures !MoveAllowed(g, r, c, d) ==> n == 0
    ensures |SolutionsFrom(g, r, c, d)| == n + |SolutionsFrom(g, r, c, d + 1)|
  {
    SolutionsFromUnfold(g, r, c, d);
    n := if MoveAllowed(g, r, c, d) then |Solutions(Update(g, r, c, d))| else 0;
  }

  /** The arithmetic of one step of the counting loop. */
  lemma CountStep(done: int, count: int, sub: int, n: int, limit: int)
    requires 0 <= count < limit && Min(done, limit) <= count <= done
    requires 0 <= n && Min(n, limit) <= sub <= n
    ensures 0 <= count + sub && Min(done + n, limit) <= count + sub <= done + n
  {
  }

  function Min(a: int, b: int): int {
    if a <= b then a else b
  }

  // ---------------------------------------------------------------------------
  // Properties of the search

  lemma SolutionsOfFull(g: Grid)
    requires Full(g)
    ensures Solutions(g) == [g]
  {
    FirstEmptyFirst(g);
  }

  lemma AgreesTransitive(g: Grid, h: Grid, s: Grid)
    requires Agrees(g, h) && Agrees(h, s)
    ensures Agrees(g, s)
  {
  }

  /** Placing an allowed digit in an empty cell keeps a grid conflict-free. */
  lemma PlacementKeepsConflictFree(g: Grid, r: int, c: int, d: int)
    requires ConflictFree(g) && InRange(r, c) && g[r][c] == 0 && d != 0 && MoveAllowed(g, r, c, d)
    ensures ConflictFree(Update(g, r, c, d))
  {
    var h := Update(g, r, c, d);
    forall a, b, p, q | InRange(a, b) && InRange(p, q) && Peer(a, b, p, q) && h[a][b] != 0
      ensures h[a][b] != h[p][q]
    {
      if (a, b) == (r, c) {
        assert InUnit(r, c, p, q);
      } else if (p, q) == (r, c) {
        assert InUnit(r, c, a, b);
      }
    }
  }

  /** Every grid the search reaches is full, keeps the filled cells of `g`, and keeps its validity. */
  lemma {:induction false} SolutionsSound(g: Grid, s: Grid)
    requires IsGrid(g) && s in Solutions(g)
    ensures Full(s) && Agrees(g, s)
    ensures IsBoard(g) ==> IsBoard(s)
    ensures ConflictFree(g) ==> ConflictFree(s)
    decreases Zeros(g), 1, 0
  {
    match FirstEmpty(g)
    case None => FirstEmptyFirst(g);
    case Some((r, c)) => SolutionsFromSound(g, r, c, 1, s);
  }

  lemma {:induction false} SolutionsFromSound(g: Grid, r: int, c: int, d: int, s: Grid)
    requires IsGrid(g) && InRange(r, c) && g[r][c] == 0 && 1 <= d <= 10
    requires s in SolutionsFrom(g, r, c, d)
    ensures Full(s) && Agrees(g, s) && d <= s[r][c] <= 9
    ensures IsBoard(g) ==> IsBoard(s)
    ensures ConflictFree(g) ==> ConflictFree(s)
    decreases Zeros(g), 0, 10 - d
  {
    var rest := SolutionsFrom(g, r, c, d + 1);
    if s in rest {
      SolutionsFromSound(g, r, c, d + 1, s);
    } else {
      assert MoveAllowed(g, r, c, d);
      var h := Update(g, r, c, d);
      ZerosShrink(g, r, c, d);
      assert s in Solutions(h);
      SolutionsSound(h, s);
      AgreesTransitive(g, h, s);
      if ConflictFree(g) {
        PlacementKeepsConflictFree(g, r, c, d);
      }
    }
  }

  /** The digit a valid completion holds at an empty cell is an allowed move there. */
  lemma CompletionDigitAllowed(g: Grid, r: int, c: int, s: Grid)
    requires ValidSolution(s) && Agrees(g, s) && InRange(r, c) && g[r][c] == 0
    ensures MoveAllowed(g, r, c, s[r][c])
  {
    forall p, q | InRange(p, q) && InUnit(r, c, p, q) ensures g[p][q] != s[r][c] {
      if (p, q) != (r, c) {
        assert Peer(r, c, p, q);
      }
    }
  }

  /** The search reaches every valid completion of `g`. */
  lemma {:induction false} SolutionsComplete(g: Grid, s: Grid)
    requires IsGrid(g) && ValidSolution(s) && Agrees(g, s)
    ensures s in Solutions(g)
    decreases Zeros(g), 1, 0
  {
    match FirstEmpty(g)
    case None =>
      FirstEmptyFirst(g);
      GridExtensionality(g, s);
    case Some((r, c)) =>
      SolutionsFromComplete(g, r, c, 1, s);
  }

  lemma {:induction false} SolutionsFromComplete(g: Grid, r: int, c: int, d: int, s: Grid)
    requires IsGrid(g) && InRange(r, c) && g[r][c] == 0 && 1 <= d <= 10
    requires ValidSolution(s) && Agrees(g, s) && d <= s[r][c]
    ensures s in SolutionsFrom(g, r, c, d)
    decreases Zeros(g), 0, 10 - d
  {
    if d < s[r][c] {
      SolutionsFromComplete(g, r, c, d + 1, s);
    } else {
      CompletionDigitAllowed(g, r, c, s);
      var h := Update(g, r, c, d);
      ZerosShrink(g, r, c, d);
      SolutionsComplete(h, s);
    }
  }

  /** The search never reaches the same grid twice. */
  lemma {:induction false} SolutionsDistinct(g: Grid)
    requires IsGrid(g)
    ensures NoDuplicates(Solutions(g))
    decreases Zeros(g), 1, 0
  {
    match FirstEmpty(g)
    case None =>
    case Some((r, c)) => SolutionsFromDistinct(g, r, c, 1);
  }

  lemma {:induction false} SolutionsFromDistinct(g: Grid, r: int, c: int, d: int)
    requires IsGrid(g) && InRange(r, c) && g[r][c] == 0 && 1 <= d <= 10
    ensures NoDuplicates(SolutionsFrom(g, r, c, d))
    decreases Zeros(g), 0, 10 - d
  {
    if d < 10 {
      var rest := SolutionsFrom(g, r, c, d + 1);
      SolutionsFromDistinct(g, r, c, d + 1);
      if MoveAllowed(g, r, c, d) {
        var h := Update(g, r, c, d);
        ZerosShrink(g, r, c, d);
        SolutionsDistinct(h);
        forall s | s in Solutions(h) ensures s !in rest {
          SolutionsSound(h, s);
          if s in rest {
            SolutionsFromSound(g, r, c, d + 1, s);
          }
        }
        NoDuplicatesAppend(Solutions(h), rest);
      }
    }
  }

  /**
   On a conflict-free board the search finds exactly the valid completions,
   each once; so |Solutions(g)| is the number of completions of `g`.
   */
  lemma SolutionsAreCompletions(g: Grid)
    requires IsBoard(g) && ConflictFree(g)
    ensures forall s :: s in Solutions(g) <==> ValidSolution(s) && Agrees(g, s)
    ensures NoDuplicates(Solutions(g))
  {
    forall s ensures s in Solutions(g) <==> ValidSolution(s) && Agrees(g, s) {
      if s in Solutions(g) {
        SolutionsSound(g, s);
      }
      if ValidSolution(s) && Agrees(g, s) {
        SolutionsComplete(g, s);
      }
    }
    SolutionsDistinct(g);
  }

  /** The grid the solver ends on is a valid Sudoku that keeps every given of a conflict-free board. */
  lemma FirstSolutionValid(g: Grid)
    requires IsBoard(g) && ConflictFree(g) && Solutions(g) != []
    ensures ValidSolution(Solutions(g)[0]) && Agrees(g, Solutions(g)[0])
  {
    SolutionsSound(g, Solutions(g)[0]);
  }

  // ---------------------------------------------------------------------------
  // The programs

  /** The first cell holding 0 in row-major order, or None. */
  method FindEmptyCell(board: array2<int>, ghost g: Grid) returns (cell: Option<(int, int)>)
    requires Holds(board, g)
    ensures cell == FirstEmpty(g)
  {
    for row := 0 to 9
      invariant forall i, j :: InRange(i, j) && i < row ==> g[i][j] != 0
    {
      for col := 0 to 9
        invariant forall i, j :: InRange(i, j) && Before(i, j, row, col) ==> g[i][j] != 0
      {
        if board[row, col] == 0 {
          FirstEmptyFirst(g);
          return Some((row, col));
        }
      }
    }
    FirstEmptyFirst(g);
    return None;
  }

  /** Whether `num` occurs neither in the row, nor in the column, nor in the box of (row, col). */
  method IsValidMove(board: array2<int>, row: int, col: int, num: int, ghost g: Grid) returns (valid: bool)
    requires Holds(board, g) && InRange(row, col)
    ensures valid == MoveAllowed(g, row, col, num)
  {
    for x := 0 to 9
      invariant forall q :: 0 <= q < x ==> g[row][q] != num
    {
      if board[row, x] == num {
        return false;
      }
    }
    for x := 0 to 9
      invariant forall p :: 0 <= p < x ==> g[p][col] != num
    {
      if board[x, col] == num {
        return false;
      }
    }
    var boxRow := (row / 3) * 3;
    var boxCol := (col / 3) * 3;
    for i := 0 to 3
      invariant forall p, q :: boxRow <= p < boxRow + i && boxCol <= q < boxCol + 3 ==> g[p][q] != num
    {
      for j := 0 to 3
        invariant forall p, q :: (boxRow <= p < boxRow + i && boxCol <= q < boxCol + 3) || (p == boxRow + i && boxCol <= q < boxCol + j) ==> g[p][q] != num
      {
        if board[boxRow + i, boxCol + j] == num {
          return false;
        }
      }
    }
    return true;
  }

  /**
   Fills the empty cells of `board`, which holds `g`, in place by depth-first
   search. On success the board holds the first completion the search
   reaches; on failure it holds `g` again.
   */
  method SolveSudoku(board: array2<int>, ghost g: Grid) returns (solved: bool)
    requires Holds(board, g)
    modifies board
    ensures solved == (Solutions(g) != [])
    ensures solved ==> Holds(board, Solutions(g)[0])
    ensures !solved ==> Holds(board, g)
    decreases Zeros(g), 2
  {
    var emptyCell := FindEmptyCell(board, g);
    if emptyCell.None? {
      return true;
    }
    var (row, col) := emptyCell.value;
    SolutionsStart(g, row, col);
    solved := SolveDigits(board, row, col, g);
  }

  /** The digit loop of the solver at the empty cell (row, col). */
  method SolveDigits(board: array2<int>, row: int, col: int, ghost g: Grid) returns (solved: bool)
    requires Holds(board, g) && InRange(row, col) && g[row][col] == 0
    modifies board
    ensures solved == (SolutionsFrom(g, row, col, 1) != [])
    ensures solved ==> Holds(board, SolutionsFrom(g, row, col, 1)[0])
    ensures !solved ==> Holds(board, g)
    decreases Zeros(g), 1
  {
    var num := 1;
    while num <= 9
      invariant 1 <= num <= 10
      invariant Holds(board, g)
      invariant SolutionsFrom(g, row, col, num) == SolutionsFrom(g, row, col, 1)
    {
      solved := TryDigit(board, row, col, num, g);
      if solved {
        SolveStepFound(g, row, col, num);
        return;
      }
      SolveStepFailed(g, row, col, num);
      num := num + 1;
    }
    SolutionsEnd(g, row, col);
    return false;
  }

  /**
   One turn of the search loop: place `num` at the empty cell (row, col) if
   the rules allow it and solve the rest; undo the placement on failure.
   */
  method TryDigit(board: array2<int>, row: int, col: int, num: int, ghost g: Grid) returns (solved: bool)
    requires Holds(board, g) && InRange(row, col) && g[row][col] == 0 && 1 <= num <= 9
    modifies board
    ensures solved == (MoveAllowed(g, row, col, num) && Solutions(Update(g, row, col, num)) != [])
    ensures solved ==> Holds(board, Solutions(Update(g, row, col, num))[0])
    ensures !solved ==> Holds(board, g)
    decreases Zeros(g), 0
  {
    var valid := IsValidMove(board, row, col, num, g);
    if !valid {
      return false;
    }
    ghost var h := Update(g, row, col, num);
    SetCell(board, row, col, num, g);
    ZerosShrink(g, row, col, num);
    solved := SolveSudoku(board, h);
    if !solved {
      SetCell(board, row, col, 0, h);
      UpdateUndone(g, row, col, num);
    }
  }

  /**
   Counts the completions the search reaches from the grid `g` that `board`
   holds, giving up on further digits at a cell once the running count has
   reached `limit`. The board holds `g` again afterwards.
   */
  method CountSolutions(board: array2<int>, limit: int, ghost g: Grid) returns (count: int)
    requires Holds(board, g)
    modifies board
    ensures Holds(board, g)
    ensures 0 <= count
    ensures Min(|Solutions(g)|, limit) <= count <= |Solutions(g)|
    ensures Full(g) ==> count == 1
    decreases Zeros(g), 2
  {
    var emptyCell := FindEmptyCell(board, g);
    if emptyCell.None? {
      return 1;
    }
    var (row, col) := emptyCell.value;
    SolutionsStart(g, row, col);
    count := CountDigits(board, row, col, limit, g);
  }

  /** The digit loop of the counter at the empty cell (row, col). */
  method CountDigits(board: array2<int>, row: int, col: int, limit: int, ghost g: Grid) returns (count: int)
    requires Holds(board, g) && InRange(row, col) && g[row][col] == 0
    modifies board
    ensures Holds(board, g)
    ensures 0 <= count
    ensures Min(|SolutionsFrom(g, row, col, 1)|, limit) <= count <= |SolutionsFrom(g, row, col, 1)|
    decreases Zeros(g), 1
  {
    count := 0;
    ghost var done := 0;
    var num := 1;
    while num <= 9 && count < limit
      invariant 1 <= num <= 10
      invariant Holds(board, g)
      invariant done + |SolutionsFrom(g, row, col, num)| == |SolutionsFrom(g, row, col, 1)|
      invariant 0 <= count && Min(done, limit) <= count <= done
    {
      var sub := CountDigit(board, row, col, num, limit, g);
      ghost var n := CountStepSplit(g, row, col, num);
      CountStep(done, count, sub, n, limit);
      count := count + sub;
      done := done + n;
      num := num + 1;
    }
    if count < limit {
      SolutionsEnd(g, row, col);
    }
  }

  /** One turn of the counting loop: the completions counted with `num` at (row, col). */
  method CountDigit(board: array2<int>, row: int, col: int, num: int, limit: int, ghost g: Grid) returns (sub: int)
    requires Holds(board, g) && InRange(row, col) && g[row][col] == 0 && 1 <= num <= 9
    modifies board
    ensures Holds(board, g)
    ensures !MoveAllowed(g, row, col, num) ==> sub == 0
    ensures MoveAllowed(g, row, col, num) ==>
      Min(|Solutions(Update(g, row, col, num))|, limit) <= sub <= |Solutions(Update(g, row, col, num))|
    decreases Zeros(g), 0
  {
    var valid := IsValidMove(board, row, col, num, g);
    if !valid {
      return 0;
    }
    ghost var h := Update(g, row, col, num);
    SetCell(board, row, col, num, g);
    ZerosShrink(g, row, col, num);
    sub := CountSolutions(board, limit, h);
    SetCell(board, row, col, 0, h);
    UpdateUndone(g, row, col, num);
  }
}
