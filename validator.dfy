/**
 Read-only checks run on the player's board: whether a digit may stand in a
 cell, which cells clash with a cell, which filled cells disagree with the
 known solution, and whether the board equals the solution.
 */
module Validator {
  import opened Board
  import Solver

  // ---------------------------------------------------------------------------
  // Specification

  /** No peer of (r, c) holds `n`; the cell (r, c) itself is not looked at. */
  ghost predicate PlacementAllowed(g: Grid, r: int, c: int, n: int)
    requires IsGrid(g)
  {
    forall p, q :: InRange(p, q) && Peer(r, c, p, q) ==> g[p][q] != n
  }

  /** The cells (r, x), x < k, x != c, that hold `n`, by ascending column. */
  function RowHits(g: Grid, r: int, c: int, n: int, k: int): seq<(int, int)>
    requires IsGrid(g) && 0 <= r < 9 && 0 <= k <= 9
  {
    if k == 0 then []
    else RowHits(g, r, c, n, k - 1) + (if k - 1 != c && g[r][k - 1] == n then [(r, k - 1)] else [])
  }

  /** The cells (x, c), x < k, x != r, that hold `n`, by ascending row. */
  function ColHits(g: Grid, r: int, c: int, n: int, k: int): seq<(int, int)>
    requires IsGrid(g) && 0 <= c < 9 && 0 <= k <= 9
  {
    if k == 0 then []
    else ColHits(g, r, c, n, k - 1) + (if k - 1 != r && g[k - 1][c] == n then [(k - 1, c)] else [])
  }

  /**
   The cells (BoxStart(r) + i, BoxStart(c) + y), y < j, of row i of the box
   of (r, c) that lie outside the row and the column of (r, c) and hold `n`.
   */
  function BoxRowHits(g: Grid, r: int, c: int, n: int, i: int, j: int): seq<(int, int)>
    requires IsGrid(g) && InRange(r, c) && 0 <= i < 3 && 0 <= j <= 3
  {
    if j == 0 then []
    else
      var p, q := BoxStart(r) + i, BoxStart(c) + j - 1;
      BoxRowHits(g, r, c, n, i, j - 1) + (if p != r && q != c && g[p][q] == n then [(p, q)] else [])
  }

  /** The box scan over rows 0..i-1 of the box of (r, c). */
  function BoxHits(g: Grid, r: int, c: int, n: int, i: int): seq<(int, int)>
    requires IsGrid(g) && InRange(r, c) && 0 <= i <= 3
  {
    if i == 0 then [] else BoxHits(g, r, c, n, i - 1) + BoxRowHits(g, r, c, n, i - 1, 3)
  }

  /** The row scan finds exactly the other cells of the row holding `n`, each once. */
  lemma {:induction false} RowHitsMembers(g: Grid, r: int, c: int, n: int, k: int)
    requires IsGrid(g) && 0 <= r < 9 && 0 <= k <= 9
    ensures forall p, q :: (p, q) in RowHits(g, r, c, n, k) <==> p == r && 0 <= q < k && q != c && g[r][q] == n
    ensures NoDuplicates(RowHits(g, r, c, n, k))
  {
    if k > 0 {
      RowHitsMembers(g, r, c, n, k - 1);
      NoDuplicatesAppend(RowHits(g, r, c, n, k - 1), if k - 1 != c && g[r][k - 1] == n then [(r, k - 1)] else []);
    }
  }

  /** The column scan finds exactly the other cells of the column holding `n`, each once. */
  lemma {:induction false} ColHitsMembers(g: Grid, r: int, c: int, n: int, k: int)
    requires IsGrid(g) && 0 <= c < 9 && 0 <= k <= 9
    ensures forall p, q :: (p, q) in ColHits(g, r, c, n, k) <==> q == c && 0 <= p < k && p != r && g[p][c] == n
    ensures NoDuplicates(ColHits(g, r, c, n, k))
  {
    if k > 0 {
      ColHitsMembers(g, r, c, n, k - 1);
      NoDuplicatesAppend(ColHits(g, r, c, n, k - 1), if k - 1 != r && g[k - 1][c] == n then [(k - 1, c)] else []);
    }
  }

  lemma {:induction false} BoxRowHitsMembers(g: Grid, r: int, c: int, n: int, i: int, j: int)
    requires IsGrid(g) && InRange(r, c) && 0 <= i < 3 && 0 <= j <= 3
    ensures forall p, q :: (p, q) in BoxRowHits(g, r, c, n, i, j) <==>
      p == BoxStart(r) + i && BoxStart(c) <= q < BoxStart(c) + j && p != r && q != c && g[p][q] == n
    ensures NoDuplicates(BoxRowHits(g, r, c, n, i, j))
  {
    if j > 0 {
      var p, q := BoxStart(r) + i, BoxStart(c) + j - 1;
      BoxRowHitsMembers(g, r, c, n, i, j - 1);
      NoDuplicatesAppend(BoxRowHits(g, r, c, n, i, j - 1), if p != r && q != c && g[p][q] == n then [(p, q)] else []);
    }
  }

  /**
   The box scan finds exactly the cells of the box outside the row and the
   column of (r, c) holding `n`, each once.
   */
  lemma {:induction false} BoxHitsMembers(g: Grid, r: int, c: int, n: int, i: int)
    requires IsGrid(g) && InRange(r, c) && 0 <= i <= 3
    ensures forall p, q :: (p, q) in BoxHits(g, r, c, n, i) <==>
      BoxStart(r) <= p < BoxStart(r) + i && BoxStart(c) <= q < BoxStart(c) + 3 && p != r && q != c && g[p][q] == n
    ensures NoDuplicates(BoxHits(g, r, c, n, i))
  {
    if i > 0 {
      var prior, last := BoxHits(g, r, c, n, i - 1), BoxRowHits(g, r, c, n, i - 1, 3);
      BoxHitsMembers(g, r, c, n, i - 1);
      BoxRowHitsMembers(g, r, c, n, i - 1, 3);
      forall x | x in prior ensures x !in last {
        var (p, q) := x;
      }
      NoDuplicatesAppend(prior, last);
    }
  }

  /**
   The cells clashing with (r, c): empty for an empty cell; otherwise the
   cells of its row, then of its column, then of the rest of its box, that
   hold its digit.
   */
  ghost function Conflicts(g: Grid, r: int, c: int): seq<(int, int)>
    requires IsGrid(g) && InRange(r, c)
  {
    var n := g[r][c];
    if n == 0 then []
    else RowHits(g, r, c, n, 9) + ColHits(g, r, c, n, 9) + BoxHits(g, r, c, n, 3)
  }

  /** The filled cells of `g` disagreeing with `s`. */
  ghost function ErrorCells(g: Grid, s: Grid): set<(int, int)>
    requires IsGrid(g) && IsGrid(s)
  {
    set r, c | 0 <= r < 9 && 0 <= c < 9 && g[r][c] != 0 && g[r][c] != s[r][c] :: (r, c)
  }

  // ---------------------------------------------------------------------------
  // Properties

  /** The solver's check includes the cell itself; the validator's leaves it out. */
  lemma MoveAllowedIsPlacementAllowed(g: Grid, r: int, c: int, n: int)
    requires IsGrid(g) && InRange(r, c)
    ensures Solver.MoveAllowed(g, r, c, n) <==> PlacementAllowed(g, r, c, n) && g[r][c] != n
  {
    if PlacementAllowed(g, r, c, n) && g[r][c] != n {
      forall p, q | InRange(p, q) && InUnit(r, c, p, q) ensures g[p][q] != n {
        if (p, q) != (r, c) {
          assert Peer(r, c, p, q);
        }
      }
    }
  }

  /** On an empty cell and a digit 1..9 the two checks agree. */
  lemma AgreesWithSolverOnEmptyCell(g: Grid, r: int, c: int, n: int)
    requires IsGrid(g) && InRange(r, c) && g[r][c] == 0 && 1 <= n <= 9
    ensures Solver.MoveAllowed(g, r, c, n) == PlacementAllowed(g, r, c, n)
  {
    MoveAllowedIsPlacementAllowed(g, r, c, n);
  }

  /** A grid is conflict-free exactly when every filled cell passes the placement check. */
  lemma ConflictFreeIsPlacementAllowed(g: Grid)
    requires IsGrid(g)
    ensures ConflictFree(g) <==>
      forall r, c :: InRange(r, c) && g[r][c] != 0 ==> PlacementAllowed(g, r, c, g[r][c])
  {
  }

  /** The conflicts of a filled cell are exactly its peers holding the same digit. */
  lemma ConflictsAreClashingPeers(g: Grid, r: int, c: int)
    requires IsGrid(g) && InRange(r, c)
    ensures forall p, q :: (p, q) in Conflicts(g, r, c) <==>
      g[r][c] != 0 && InRange(p, q) && Peer(r, c, p, q) && g[p][q] == g[r][c]
  {
    var n := g[r][c];
    if n != 0 {
      var rows, cols, boxes := RowHits(g, r, c, n, 9), ColHits(g, r, c, n, 9), BoxHits(g, r, c, n, 3);
      RowHitsMembers(g, r, c, n, 9);
      ColHitsMembers(g, r, c, n, 9);
      BoxHitsMembers(g, r, c, n, 3);
      forall p, q ensures (p, q) in rows + cols + boxes <==> InRange(p, q) && Peer(r, c, p, q) && g[p][q] == n {
      }
    }
  }

  /** No cell is listed twice: the row, column and box scans look at disjoint cells. */
  lemma ConflictsDistinct(g: Grid, r: int, c: int)
    requires IsGrid(g) && InRange(r, c)
    ensures NoDuplicates(Conflicts(g, r, c))
  {
    var n := g[r][c];
    if n != 0 {
      var rows, cols, boxes := RowHits(g, r, c, n, 9), ColHits(g, r, c, n, 9), BoxHits(g, r, c, n, 3);
      RowHitsMembers(g, r, c, n, 9);
      ColHitsMembers(g, r, c, n, 9);
      BoxHitsMembers(g, r, c, n, 3);
      forall x | x in rows ensures x !in cols {
        var (p, q) := x;
      }
      NoDuplicatesAppend(rows, cols);
      forall x | x in rows + cols ensures x !in boxes {
        var (p, q) := x;
      }
      NoDuplicatesAppend(rows + cols, boxes);
    }
  }

  /** A filled cell has no conflicts exactly when its own digit passes the placement check. */
  lemma NoConflictsIffPlacementAllowed(g: Grid, r: int, c: int)
    requires IsGrid(g) && InRange(r, c) && g[r][c] != 0
    ensures Conflicts(g, r, c) == [] <==> PlacementAllowed(g, r, c, g[r][c])
  {
    ConflictsAreClashingPeers(g, r, c);
    if Conflicts(g, r, c) != [] {
      var (p, q) := Conflicts(g, r, c)[0];
      assert (p, q) in Conflicts(g, r, c);
    }
    if !PlacementAllowed(g, r, c, g[r][c]) {
      var p, q :| InRange(p, q) && Peer(r, c, p, q) && g[p][q] == g[r][c];
      assert (p, q) in Conflicts(g, r, c);
    }
  }

  /** The board shows no error exactly when every filled cell agrees with the solution. */
  lemma NoErrorsIffAgrees(g: Grid, s: Grid)
    requires IsGrid(g) && IsGrid(s)
    ensures ErrorCells(g, s) == {} <==> Agrees(g, s)
  {
    if !Agrees(g, s) {
      var r, c :| InRange(r, c) && g[r][c] != 0 && g[r][c] != s[r][c];
      assert (r, c) in ErrorCells(g, s);
    }
  }

  /** A board equal to the solution shows no error. */
  lemma SolvedHasNoErrors(g: Grid, s: Grid)
    requires IsGrid(g) && g == s
    ensures ErrorCells(g, s) == {}
  {
    NoErrorsIffAgrees(g, s);
  }

  // ---------------------------------------------------------------------------
  // The programs

  /** Whether `num` occurs in no other cell of the row, the column or the box of (row, col). */
  method IsValidPlacement(board: array2<int>, row: int, col: int, num: int) returns (valid: bool)
    requires Is9x9(board) && InRange(row, col)
    ensures valid == PlacementAllowed(Snapshot(board), row, col, num)
  {
    ghost var g := Snapshot(board);
    for x := 0 to 9
      invariant forall q :: 0 <= q < x && q != col ==> g[row][q] != num
    {
      if x != col && board[row, x] == num {
        return false;
      }
    }
    for x := 0 to 9
      invariant forall p :: 0 <= p < x && p != row ==> g[p][col] != num
    {
      if x != row && board[x, col] == num {
        return false;
      }
    }
    var boxRow := BoxStart(row);
    var boxCol := BoxStart(col);
    for i := 0 to 3
      invariant forall p, q :: boxRow <= p < boxRow + i && boxCol <= q < boxCol + 3 && p != row && q != col ==> g[p][q] != num
    {
      for j := 0 to 3
        invariant forall p, q :: ((boxRow <= p < boxRow + i && boxCol <= q < boxCol + 3) || (p == boxRow + i && boxCol <= q < boxCol + j)) && p != row && q != col ==> g[p][q] != num
      {
        var checkRow := boxRow + i;
        var checkCol := boxCol + j;
        if checkRow != row && checkCol != col && board[checkRow, checkCol] == num {
          return false;
        }
      }
    }
    return true;
  }

  /** The cells clashing with (row, col), in the order the row, column and box are scanned. */
  method GetConflictingCells(board: array2<int>, row: int, col: int) returns (conflicts: seq<(int, int)>)
    requires Is9x9(board) && InRange(row, col)
    ensures conflicts == Conflicts(Snapshot(board), row, col)
  {
    ghost var g := Snapshot(board);
    conflicts := [];
    var num := board[row, col];
    if num == 0 {
      return;
    }
    for x := 0 to 9
      invariant conflicts == RowHits(g, row, col, num, x)
    {
      if x != col && board[row, x] == num {
        conflicts := conflicts + [(row, x)];
      }
    }
    ghost var rows := conflicts;
    for x := 0 to 9
      invariant conflicts == rows + ColHits(g, row, col, num, x)
    {
      if x != row && board[x, col] == num {
        conflicts := conflicts + [(x, col)];
      }
    }
    ghost var lines := conflicts;
    var boxRow := BoxStart(row);
    var boxCol := BoxStart(col);
    for i := 0 to 3
      invariant conflicts == lines + BoxHits(g, row, col, num, i)
    {
      for j := 0 to 3
        invariant conflicts == lines + BoxHits(g, row, col, num, i) + BoxRowHits(g, row, col, num, i, j)
      {
        var checkRow := boxRow + i;
        var checkCol := boxCol + j;
        AppendAssociative(lines + BoxHits(g, row, col, num, i), BoxRowHits(g, row, col, num, i, j),
          if checkRow != row && checkCol != col && g[checkRow][checkCol] == num then [(checkRow, checkCol)] else []);
        if checkRow != row && checkCol != col && board[checkRow, checkCol] == num {
          conflicts := conflicts + [(checkRow, checkCol)];
        }
      }
      AppendAssociative(lines, BoxHits(g, row, col, num, i), BoxRowHits(g, row, col, num, i, 3));
    }
  }

  /**
   The filled cells of `board` that disagree with `solution`; none when no
   solution is known.
   */
  method GetAllErrorCells(board: array2<int>, solution: Option<array2<int>>) returns (errorCells: set<(int, int)>)
    requires Is9x9(board) && (solution.Some? ==> Is9x9(solution.value))
    ensures solution.None? ==> errorCells == {}
    ensures solution.Some? ==> errorCells == ErrorCells(Snapshot(board), Snapshot(solution.value))
  {
    errorCells := {};
    if solution.None? {
      return;
    }
    var s := solution.value;
    ghost var g, h := Snapshot(board), Snapshot(s);
    for row := 0 to 9
      invariant forall x :: x in errorCells <==> x in ErrorCells(g, h) && x.0 < row
    {
      for col := 0 to 9
        invariant forall x :: x in errorCells <==> x in ErrorCells(g, h) && Before(x.0, x.1, row, col)
      {
        if board[row, col] != 0 && board[row, col] != s[row, col] {
          errorCells := errorCells + {(row, col)};
        }
      }
    }
  }

  /** Whether every cell of `board` equals the same cell of `solution`. */
  method IsSolved(board: array2<int>, solution: array2<int>) returns (solved: bool)
    requires Is9x9(board) && Is9x9(solution)
    ensures solved == (Snapshot(board) == Snapshot(solution))
  {
    ghost var g, h := Snapshot(board), Snapshot(solution);
    for row := 0 to 9
      invariant forall i, j :: InRange(i, j) && i < row ==> g[i][j] == h[i][j]
    {
      for col := 0 to 9
        invariant forall i, j :: InRange(i, j) && Before(i, j, row, col) ==> g[i][j] == h[i][j]
      {
        if board[row, col] != solution[row, col] {
          return false;
        }
      }
    }
    GridExtensionality(g, h);
    return true;
  }

  /**
   Whether the board shows any error. It asks for the error cells without a
   solution, so the answer is always no.
   */
  method HasConflicts(board: array2<int>) returns (has: bool)
    requires Is9x9(board)
    ensures !has
  {
    var errorCells := GetAllErrorCells(board, None);
    has := |errorCells| > 0;
  }

  /**
   A board with the same digit twice in its top row has a conflict, although
   HasConflicts reports none for it (or for any board).
   */
  lemma HasConflictsMissesClash(g: Grid)
    requires IsGrid(g) && g[0][0] != 0 && g[0][0] == g[0][1]
    ensures !ConflictFree(g)
  {
    assert Peer(0, 0, 0, 1);
  }

  /** The filled cell (r, c) shares its digit with none of its peers. */
  ghost predicate NoClash(g: Grid, r: int, c: int)
    requires IsGrid(g) && InRange(r, c)
  {
    g[r][c] != 0 ==> PlacementAllowed(g, r, c, g[r][c])
  }

  /** A cell has no conflicting cells exactly when it clashes with no peer. */
  lemma NoConflictsIffNoClash(g: Grid, r: int, c: int)
    requires IsGrid(g) && InRange(r, c)
    ensures Conflicts(g, r, c) == [] <==> NoClash(g, r, c)
  {
    if g[r][c] != 0 {
      NoConflictsIffPlacementAllowed(g, r, c);
    }
  }

  /** One clashing cell is enough to make a grid not conflict-free. */
  lemma ClashBreaksConflictFree(g: Grid, r: int, c: int)
    requires IsGrid(g) && InRange(r, c) && !NoClash(g, r, c)
    ensures !ConflictFree(g)
  {
    var p, q :| InRange(p, q) && Peer(r, c, p, q) && g[p][q] == g[r][c];
  }

  /** No filled cell of row r clashes with a peer. */
  ghost predicate RowClashFree(g: Grid, r: int)
    requires IsGrid(g) && 0 <= r < 9
  {
    forall c :: 0 <= c < 9 ==> NoClash(g, r, c)
  }

  /** Whether some filled cell of row `row` clashes with a peer. */
  method RowHasConflicts(board: array2<int>, row: int) returns (has: bool)
    requires Is9x9(board) && 0 <= row < 9
    ensures has == !RowClashFree(Snapshot(board), row)
  {
    ghost var g := Snapshot(board);
    for col := 0 to 9
      invariant forall j :: 0 <= j < col ==> NoClash(g, row, j)
    {
      var conflicts := GetConflictingCells(board, row, col);
      NoConflictsIffNoClash(g, row, col);
      if |conflicts| > 0 {
        return true;
      }
    }
    return false;
  }

  /** Whether some filled cell of `board` clashes with a peer: the check HasConflicts is named for. */
  method BoardHasConflicts(board: array2<int>) returns (has: bool)
    requires Is9x9(board)
    ensures has == !ConflictFree(Snapshot(board))
  {
    ghost var g := Snapshot(board);
    for row := 0 to 9
      invariant forall i :: 0 <= i < row ==> RowClashFree(g, i)
    {
      has := RowHasConflicts(board, row);
      if has {
        ghost var c :| 0 <= c < 9 && !NoClash(g, row, c);
        ClashBreaksConflictFree(g, row, c);
        return;
      }
    }
    has := false;
    assert forall i, j :: InRange(i, j) ==> NoClash(g, i, j) by {
      forall i, j | InRange(i, j) ensures NoClash(g, i, j) {
        assert RowClashFree(g, i);
      }
    }
  }
}
