/**
 The 9x9 Sudoku grid shared by the solver, the validator and the generator.
 The programs work on a mutable `array2<int>`; their specifications talk about
 an immutable snapshot of it, a `Grid` (a sequence of nine rows of nine cells).
 A cell holding 0 is empty.
 */
module Board {

  datatype Option<T> = None | Some(value: T)

  /** Rows of cells; `g[r][c]` is the cell in row `r`, column `c`. */
  type Grid = seq<seq<int>>

  predicate InRange(r: int, c: int) {
    0 <= r < 9 && 0 <= c < 9
  }

  /** (i, j) comes strictly before (r, c) in row-major order. */
  predicate Before(i: int, j: int, r: int, c: int) {
    i < r || (i == r && j < c)
  }

  predicate IsGrid(g: Grid) {
    |g| == 9 && forall r :: 0 <= r < 9 ==> |g[r]| == 9
  }

  /** Every cell is empty or holds a digit 1..9. */
  ghost predicate IsBoard(g: Grid) {
    IsGrid(g) && forall r, c :: InRange(r, c) ==> 0 <= g[r][c] <= 9
  }

  predicate Is9x9(a: array2<int>) {
    a.Length0 == 9 && a.Length1 == 9
  }

  /** The 9x9 array `a` holds the grid `g`. */
  ghost predicate Holds(a: array2<int>, g: Grid)
    reads a
  {
    Is9x9(a) && IsGrid(g) && forall r, c :: InRange(r, c) ==> a[r, c] == g[r][c]
  }

  /** The current contents of a 9x9 array as a grid value. */
  ghost function Snapshot(a: array2<int>): (g: Grid)
    requires Is9x9(a)
    reads a
    ensures Holds(a, g)
  {
    RowsBelow(a, 9)
  }

  /** Rows 0..n-1 of `a`. */
  ghost function RowsBelow(a: array2<int>, n: int): (rows: seq<seq<int>>)
    requires Is9x9(a) && 0 <= n <= 9
    reads a
    ensures |rows| == n
    ensures forall r :: 0 <= r < n ==> |rows[r]| == 9
    ensures forall r, c :: 0 <= r < n && 0 <= c < 9 ==> rows[r][c] == a[r, c]
  {
    if n == 0 then [] else RowsBelow(a, n - 1) + [CellsBelow(a, n - 1, 9)]
  }

  /** Cells 0..n-1 of row r of `a`. */
  ghost function CellsBelow(a: array2<int>, r: int, n: int): (cells: seq<int>)
    requires Is9x9(a) && 0 <= r < 9 && 0 <= n <= 9
    reads a
    ensures |cells| == n
    ensures forall c :: 0 <= c < n ==> cells[c] == a[r, c]
  {
    if n == 0 then [] else CellsBelow(a, r, n - 1) + [a[r, n - 1]]
  }

  /** Two grids are equal when all their cells are. */
  lemma GridExtensionality(g: Grid, h: Grid)
    requires IsGrid(g) && IsGrid(h)
    requires forall r, c :: InRange(r, c) ==> g[r][c] == h[r][c]
    ensures g == h
  {
    forall r | 0 <= r < 9 ensures g[r] == h[r] {
      assert forall c :: 0 <= c < 9 ==> g[r][c] == h[r][c];
    }
  }

  /** `g` with the cell at (r, c) set to `v`. */
  function Update(g: Grid, r: int, c: int, v: int): (h: Grid)
    requires IsGrid(g) && InRange(r, c)
    ensures IsGrid(h)
    ensures h[r][c] == v
  {
    g[r := g[r][c := v]]
  }

  /** Writing back the old value of a cell undoes an update. */
  lemma UpdateUndone(g: Grid, r: int, c: int, v: int)
    requires IsGrid(g) && InRange(r, c)
    ensures Update(Update(g, r, c, v), r, c, g[r][c]) == g
  {
    GridExtensionality(Update(Update(g, r, c, v), r, c, g[r][c]), g);
  }

  /** The first row (or column) of the band holding row (or column) `i`. */
  function BoxStart(i: int): (s: int)
    ensures 0 <= i < 9 ==> (s == 0 || s == 3 || s == 6) && s <= i < s + 3
  {
    (i / 3) * 3
  }

  /** (p, q) lies in the 3x3 box holding (r, c). */
  predicate SameBox(r: int, c: int, p: int, q: int) {
    BoxStart(r) <= p < BoxStart(r) + 3 && BoxStart(c) <= q < BoxStart(c) + 3
  }

  /** (p, q) lies in the row, the column or the box of (r, c); (r, c) itself included. */
  predicate InUnit(r: int, c: int, p: int, q: int) {
    p == r || q == c || SameBox(r, c, p, q)
  }

  /** (p, q) is a cell other than (r, c) in the row, column or box of (r, c). */
  predicate Peer(r: int, c: int, p: int, q: int) {
    (p, q) != (r, c) && InUnit(r, c, p, q)
  }

  /** No filled cell shares its digit with one of its peers. */
  ghost predicate ConflictFree(g: Grid) {
    IsGrid(g) &&
    forall r, c, p, q :: InRange(r, c) && InRange(p, q) && Peer(r, c, p, q) && g[r][c] != 0 ==> g[r][c] != g[p][q]
  }

  /** No cell is empty. */
  ghost predicate Full(g: Grid) {
    IsGrid(g) && forall r, c :: InRange(r, c) ==> g[r][c] != 0
  }

  /**
   A solved Sudoku: every cell holds a digit 1..9 and no two cells sharing a
   row, a column or a box hold the same digit (so, by counting, every row,
   column and box holds each digit exactly once).
   */
  ghost predicate ValidSolution(g: Grid) {
    IsBoard(g) && Full(g) && ConflictFree(g)
  }

  /** Every filled cell of `g` holds the same digit in `s`. */
  ghost predicate Agrees(g: Grid, s: Grid) {
    IsGrid(g) && IsGrid(s) && forall r, c :: InRange(r, c) && g[r][c] != 0 ==> g[r][c] == s[r][c]
  }

  predicate NoDuplicates<T(==)>(xs: seq<T>) {
    forall i, j :: 0 <= i < j < |xs| ==> xs[i] != xs[j]
  }

  lemma NoDuplicatesAppend<T>(xs: seq<T>, ys: seq<T>)
    requires NoDuplicates(xs) && NoDuplicates(ys)
    requires forall x :: x in xs ==> x !in ys
    ensures NoDuplicates(xs + ys)
  {
    var zs := xs + ys;
    forall i, j | 0 <= i < j < |zs| ensures zs[i] != zs[j] {
      if j < |xs| {
      } else if i >= |xs| {
        assert zs[i] == ys[i - |xs|] && zs[j] == ys[j - |xs|];
      } else {
        assert zs[i] in xs && zs[j] == ys[j - |xs|];
      }
    }
  }

  lemma AppendAssociative<T>(a: seq<T>, b: seq<T>, c: seq<T>)
    ensures (a + b) + c == a + (b + c)
  {
  }

  /** Column c of g, top to bottom. */
  function Column(g: Grid, c: int): (col: seq<int>)
    requires IsGrid(g) && 0 <= c < 9
    ensures |col| == 9 && forall p :: 0 <= p < 9 ==> col[p] == g[p][c]
  {
    seq(9, p requires 0 <= p < 9 => g[p][c])
  }

  /** The row of cell k within a box read row by row: k / 3, for k in 0..8. */
  function BoxRow(k: int): int {
    if k < 3 then 0 else if k < 6 then 1 else 2
  }

  /** The 3x3 box holding (r, c), row by row. */
  function Box(g: Grid, r: int, c: int): (box: seq<int>)
    requires IsGrid(g) && InRange(r, c)
    ensures |box| == 9
    ensures forall k :: 0 <= k < 9 ==> box[k] == g[BoxStart(r) + BoxRow(k)][BoxStart(c) + k - 3 * BoxRow(k)]
  {
    seq(9, k requires 0 <= k < 9 => g[BoxStart(r) + BoxRow(k)][BoxStart(c) + k - 3 * BoxRow(k)])
  }

  /** A sequence without duplicates drawn from `s` is no longer than `s` is large. */
  lemma {:induction false} DistinctBound(xs: seq<int>, s: set<int>)
    requires NoDuplicates(xs) && forall i :: 0 <= i < |xs| ==> xs[i] in s
    ensures |xs| <= |s|
  {
    if xs != [] {
      assert forall i :: 0 <= i < |xs| - 1 ==> xs[1..][i] == xs[i + 1];
      DistinctBound(xs[1..], s - {xs[0]});
    }
  }

  /** Nine different digits 1..9 are all of them. */
  lemma AllDigits(xs: seq<int>)
    requires |xs| == 9 && NoDuplicates(xs) && forall i :: 0 <= i < 9 ==> 1 <= xs[i] <= 9
    ensures forall d :: 1 <= d <= 9 ==> d in xs
  {
    forall d | 1 <= d <= 9 ensures d in xs {
      if d !in xs {
        var digits: set<int> := {1, 2, 3, 4, 5, 6, 7, 8, 9};
        assert |digits - {d}| == 8;
        DistinctBound(xs, digits - {d});
      }
    }
  }

  /** Every row, column and box of a solved Sudoku holds each digit 1..9 exactly once. */
  lemma SolvedUnitsArePermutations(g: Grid)
    requires ValidSolution(g)
    ensures forall r :: 0 <= r < 9 ==> NoDuplicates(g[r]) && forall d :: 1 <= d <= 9 ==> d in g[r]
    ensures forall c :: 0 <= c < 9 ==> NoDuplicates(Column(g, c)) && forall d :: 1 <= d <= 9 ==> d in Column(g, c)
    ensures forall r, c :: InRange(r, c) ==> NoDuplicates(Box(g, r, c)) && forall d :: 1 <= d <= 9 ==> d in Box(g, r, c)
  {
    forall r | 0 <= r < 9 ensures NoDuplicates(g[r]) && forall d :: 1 <= d <= 9 ==> d in g[r] {
      forall i, j | 0 <= i < j < 9 ensures g[r][i] != g[r][j] {
        assert Peer(r, i, r, j);
      }
      AllDigits(g[r]);
    }
    forall c | 0 <= c < 9 ensures NoDuplicates(Column(g, c)) && forall d :: 1 <= d <= 9 ==> d in Column(g, c) {
      var col := Column(g, c);
      forall i, j | 0 <= i < j < 9 ensures col[i] != col[j] {
        assert Peer(i, c, j, c);
      }
      AllDigits(col);
    }
    forall r, c | InRange(r, c) ensures NoDuplicates(Box(g, r, c)) && forall d :: 1 <= d <= 9 ==> d in Box(g, r, c) {
      BoxDistinct(g, r, c);
      AllDigits(Box(g, r, c));
    }
  }

  /** In a solved Sudoku two peers hold different digits. */
  lemma PeersDiffer(g: Grid, r: int, c: int, p: int, q: int)
    requires ValidSolution(g) && InRange(r, c) && InRange(p, q) && Peer(r, c, p, q)
    ensures g[r][c] != g[p][q]
  {
  }

  lemma BoxCellsDiffer(g: Grid, r: int, c: int, i: int, j: int)
    requires ValidSolution(g) && InRange(r, c) && 0 <= i < j < 9
    ensures Box(g, r, c)[i] != Box(g, r, c)[j]
  {
    var top, left := BoxStart(r), BoxStart(c);
    var p1, q1 := top + BoxRow(i), left + i - 3 * BoxRow(i);
    var p2, q2 := top + BoxRow(j), left + j - 3 * BoxRow(j);
    assert BoxStart(p1) == top && BoxStart(q1) == left;
    assert InRange(p1, q1) && InRange(p2, q2) && (p1, q1) != (p2, q2);
    assert SameBox(p1, q1, p2, q2);
    PeersDiffer(g, p1, q1, p2, q2);
  }

  lemma BoxDistinct(g: Grid, r: int, c: int)
    requires ValidSolution(g) && InRange(r, c)
    ensures NoDuplicates(Box(g, r, c))
  {
    forall i, j | 0 <= i < j < 9 ensures Box(g, r, c)[i] != Box(g, r, c)[j] {
      BoxCellsDiffer(g, r, c, i, j);
    }
  }

  /** `board[r, c] := v`: the array then holds the grid `g` updated at (r, c). */
  method SetCell(board: array2<int>, r: int, c: int, v: int, ghost g: Grid)
    requires Holds(board, g) && InRange(r, c)
    modifies board
    ensures Holds(board, Update(g, r, c, v))
  {
    board[r, c] := v;
  }
}
