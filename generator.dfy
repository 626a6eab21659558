/**
 Puzzle generation: seed an empty board with three shuffled diagonal boxes,
 complete it with the solver, then clear cells in shuffled order as long as
 the puzzle keeps exactly one solution.

 Every random draw of the program is an input here. A draw `d` used as
 `Math.floor(Math.random() * m)` becomes `d % m`, so every integer is a
 possible draw and every draw lands in 0..m-1.
 */
module Generator {
  import opened Board
  import opened Solver

  // ---------------------------------------------------------------------------
  // Fisher-Yates shuffle

  function Swap<T>(s: seq<T>, i: int, j: int): (t: seq<T>)
    requires 0 <= i < |s| && 0 <= j < |s|
    ensures |t| == |s|
  {
    s[i := s[j]][j := s[i]]
  }

  /**
   The sequence after the first `k` turns of the shuffle loop. Turn k', for
   k' < k, swaps position i = |s| - 1 - k' with position draws[k'] % (i + 1).
   */
  function ShuffleSteps<T>(s: seq<T>, draws: seq<int>, k: int): (t: seq<T>)
    requires 0 <= k <= |draws| && (k == 0 || k < |s|)
    ensures |t| == |s|
  {
    if k == 0 then s
    else
      var i := |s| - k;
      Swap(ShuffleSteps(s, draws, k - 1), i, draws[k - 1] % (i + 1))
  }

  /** The number of turns of the shuffle loop on a sequence of length n. */
  function Turns(n: int): int {
    if n <= 1 then 0 else n - 1
  }

  /** `s` shuffled with one draw per turn. */
  function Shuffled<T>(s: seq<T>, draws: seq<int>): seq<T>
    requires Turns(|s|) <= |draws|
  {
    ShuffleSteps(s, draws, Turns(|s|))
  }

  lemma SwapPermutes<T>(s: seq<T>, i: int, j: int)
    requires 0 <= i < |s| && 0 <= j < |s|
    ensures multiset(Swap(s, i, j)) == multiset(s)
  {
  }

  lemma SwapDistinct<T>(s: seq<T>, i: int, j: int)
    requires 0 <= i < |s| && 0 <= j < |s|
    requires NoDuplicates(s)
    ensures NoDuplicates(Swap(s, i, j))
  {
    var t := Swap(s, i, j);
    assert forall x :: 0 <= x < |s| ==> t[x] == s[if x == i then j else if x == j then i else x];
  }

  /** One turn of the shuffle keeps the multiset of elements. */
  lemma ShuffleTurnPermutes<T>(s: seq<T>, draws: seq<int>, k: int)
    requires 0 < k <= |draws| && k < |s|
    ensures multiset(ShuffleSteps(s, draws, k)) == multiset(ShuffleSteps(s, draws, k - 1))
  {
    var i := |s| - k;
    SwapPermutes(ShuffleSteps(s, draws, k - 1), i, draws[k - 1] % (i + 1));
  }

  lemma {:induction false} ShuffleStepsPermutes<T>(s: seq<T>, draws: seq<int>, k: int)
    requires 0 <= k <= |draws| && (k == 0 || k < |s|)
    ensures multiset(ShuffleSteps(s, draws, k)) == multiset(s)
  {
    if k > 0 {
      ShuffleTurnPermutes(s, draws, k);
      ShuffleStepsPermutes(s, draws, k - 1);
    }
  }

  /** One turn of the shuffle adds no duplicates. */
  lemma ShuffleTurnDistinct<T>(s: seq<T>, draws: seq<int>, k: int)
    requires 0 < k <= |draws| && k < |s|
    requires NoDuplicates(ShuffleSteps(s, draws, k - 1))
    ensures NoDuplicates(ShuffleSteps(s, draws, k))
  {
    var i := |s| - k;
    SwapDistinct(ShuffleSteps(s, draws, k - 1), i, draws[k - 1] % (i + 1));
  }

  lemma {:induction false} ShuffleStepsDistinct<T>(s: seq<T>, draws: seq<int>, k: int)
    requires 0 <= k <= |draws| && (k == 0 || k < |s|)
    requires NoDuplicates(s)
    ensures NoDuplicates(ShuffleSteps(s, draws, k))
  {
    if k > 0 {
      ShuffleStepsDistinct(s, draws, k - 1);
      ShuffleTurnDistinct(s, draws, k);
    }
  }

  /** Shuffling rearranges: same length, same elements with the same multiplicities, no new duplicates. */
  lemma ShuffledPermutes<T>(s: seq<T>, draws: seq<int>)
    requires Turns(|s|) <= |draws|
    ensures |Shuffled(s, draws)| == |s|
    ensures multiset(Shuffled(s, draws)) == multiset(s)
    ensures NoDuplicates(s) ==> NoDuplicates(Shuffled(s, draws))
  {
    ShuffleStepsPermutes(s, draws, Turns(|s|));
    if NoDuplicates(s) {
      ShuffleStepsDistinct(s, draws, Turns(|s|));
    }
  }

  /**
   Shuffles `a` in place: for i from a.Length - 1 down to 1, swap a[i] with
   a[j] for a drawn j in 0..i.
   */
  method ShuffleArray<T>(a: array<T>, draws: seq<int>)
    requires Turns(a.Length) <= |draws|
    modifies a
    ensures a[..] == Shuffled(old(a[..]), draws)
  {
    ghost var s := a[..];
    var i := a.Length - 1;
    while i > 0
      invariant -1 <= i < a.Length
      invariant a.Length == 0 || 0 <= i
      invariant a[..] == ShuffleSteps(s, draws, a.Length - 1 - i)
    {
      var j := draws[a.Length - 1 - i] % (i + 1);
      a[i], a[j] := a[j], a[i];
      i := i - 1;
    }
  }

  // ---------------------------------------------------------------------------
  // Seeding the diagonal boxes

  /** The digits 1..9 in increasing order. */
  function Digits(): seq<int> {
    seq(9, k => k + 1)
  }

  /** A shuffle of 1..9 holds each digit exactly once. */
  lemma ShuffledDigits(draws: seq<int>)
    requires 8 <= |draws|
    ensures |Shuffled(Digits(), draws)| == 9
    ensures NoDuplicates(Shuffled(Digits(), draws))
    ensures forall x :: x in Shuffled(Digits(), draws) <==> 1 <= x <= 9
  {
    ShuffledPermutes(Digits(), draws);
    var t := Shuffled(Digits(), draws);
    forall x ensures x in t <==> 1 <= x <= 9 {
      calc {
        x in t;
        x in multiset(t);
        x in multiset(Digits());
        x in Digits();
        { if 1 <= x <= 9 { assert Digits()[x - 1] == x; } }
        1 <= x <= 9;
      }
    }
  }

  /** The digit a box filled from `numbers` with its top-left corner at (row, col) holds at (p, q). */
  function BoxDigit(numbers: seq<int>, row: int, col: int, p: int, q: int): int
    requires |numbers| == 9 && row <= p < row + 3 && col <= q < col + 3
  {
    numbers[3 * (p - row) + (q - col)]
  }

  /** (p, q) lies in the 3x3 box whose top-left cell is (row, col). */
  predicate InBoxAt(row: int, col: int, p: int, q: int) {
    row <= p < row + 3 && col <= q < col + 3
  }

  /** Of that box, the first `i` rows and the first `j` cells of row `i` come before cell (i, j). */
  predicate WrittenBefore(row: int, col: int, i: int, j: int, p: int, q: int) {
    (row <= p < row + i && col <= q < col + 3) || (p == row + i && col <= q < col + j)
  }

  /**
   Writes the digits 1..9, shuffled, into the box whose top-left cell is
   (row, col), row by row; no other cell changes.
   */
  method FillBox(board: array2<int>, row: int, col: int, draws: seq<int>)
    requires Is9x9(board) && 0 <= row <= 6 && 0 <= col <= 6 && 8 <= |draws|
    modifies board
    ensures forall p, q :: InRange(p, q) && InBoxAt(row, col, p, q) ==> board[p, q] == BoxDigit(Shuffled(Digits(), draws), row, col, p, q)
    ensures forall p, q :: InRange(p, q) && !InBoxAt(row, col, p, q) ==> board[p, q] == old(board[p, q])
  {
    var numbers := new int[9](k => k + 1);
    assert numbers[..] == Digits();
    ShuffleArray(numbers, draws);
    ghost var shuffled := numbers[..];
    var index := 0;
    for i := 0 to 3
      invariant index == 3 * i
      invariant numbers[..] == shuffled
      invariant forall p, q :: InRange(p, q) && WrittenBefore(row, col, i, 0, p, q) ==> board[p, q] == BoxDigit(shuffled, row, col, p, q)
      invariant forall p, q :: InRange(p, q) && !WrittenBefore(row, col, i, 0, p, q) ==> board[p, q] == old(board[p, q])
    {
      for j := 0 to 3
        invariant index == 3 * i + j
        invariant numbers[..] == shuffled
        invariant forall p, q :: InRange(p, q) && WrittenBefore(row, col, i, j, p, q) ==> board[p, q] == BoxDigit(shuffled, row, col, p, q)
        invariant forall p, q :: InRange(p, q) && !WrittenBefore(row, col, i, j, p, q) ==> board[p, q] == old(board[p, q])
      {
        board[row + i, col + j] := numbers[index];
        index := index + 1;
      }
    }
  }

  /** The cells (p, q) of the three diagonal boxes: those whose row band and column band agree. */
  predicate OnDiagonal(p: int, q: int) {
    BoxStart(p) == BoxStart(q)
  }

  /** Each of the three diagonal boxes has its own draws. */
  predicate BoxDraws(draws: seq<seq<int>>) {
    |draws| == 3 && forall b :: 0 <= b < 3 ==> 8 <= |draws[b]|
  }

  /** The digit the seeding puts at a diagonal cell (p, q). */
  function DiagonalDigit(draws: seq<seq<int>>, p: int, q: int): int
    requires BoxDraws(draws) && InRange(p, q) && OnDiagonal(p, q)
  {
    BoxDigit(Shuffled(Digits(), draws[BoxStart(p) / 3]), BoxStart(p), BoxStart(q), p, q)
  }

  /** Fills boxes (0, 0), (3, 3) and (6, 6); no other cell changes. */
  method FillDiagonalBoxes(board: array2<int>, draws: seq<seq<int>>)
    requires Is9x9(board) && BoxDraws(draws)
    modifies board
    ensures forall p, q :: InRange(p, q) && OnDiagonal(p, q) ==> board[p, q] == DiagonalDigit(draws, p, q)
    ensures forall p, q :: InRange(p, q) && !OnDiagonal(p, q) ==> board[p, q] == old(board[p, q])
  {
    var box := 0;
    while box < 9
      invariant box == 0 || box == 3 || box == 6 || box == 9
      invariant forall p, q :: InRange(p, q) && OnDiagonal(p, q) && BoxStart(p) < box ==> board[p, q] == DiagonalDigit(draws, p, q)
      invariant forall p, q :: InRange(p, q) && !(OnDiagonal(p, q) && BoxStart(p) < box) ==> board[p, q] == old(board[p, q])
    {
      FillBox(board, box, box, draws[box / 3]);
      box := box + 3;
    }
  }

  /** The board after seeding an empty board. */
  function SeedCell(draws: seq<seq<int>>, p: int, q: int): int
    requires BoxDraws(draws) && InRange(p, q)
  {
    if OnDiagonal(p, q) then DiagonalDigit(draws, p, q) else 0
  }

  ghost function Seed(draws: seq<seq<int>>): (g: Grid)
    requires BoxDraws(draws)
    ensures IsGrid(g)
    ensures forall p, q :: InRange(p, q) ==> g[p][q] == SeedCell(draws, p, q)
  {
    seq(9, p requires 0 <= p < 9 => seq(9, q requires 0 <= q < 9 => SeedCell(draws, p, q)))
  }

  /**
   The seeded board holds digits 0..9, has the three diagonal boxes full,
   and has no conflict: the diagonal boxes share no row and no column.
   */
  lemma SeedConflictFree(draws: seq<seq<int>>)
    requires BoxDraws(draws)
    ensures IsBoard(Seed(draws)) && ConflictFree(Seed(draws))
    ensures forall p, q :: InRange(p, q) && OnDiagonal(p, q) ==> Seed(draws)[p][q] != 0
  {
    var g := Seed(draws);
    ShuffledDigits(draws[0]);
    ShuffledDigits(draws[1]);
    ShuffledDigits(draws[2]);
    forall p, q | InRange(p, q) && OnDiagonal(p, q) ensures 1 <= g[p][q] <= 9 {
      var b := BoxStart(p) / 3;
      var k := 3 * (p - BoxStart(p)) + (q - BoxStart(q));
      assert Shuffled(Digits(), draws[b])[k] in Shuffled(Digits(), draws[b]);
    }
    forall r, c, p, q | InRange(r, c) && InRange(p, q) && Peer(r, c, p, q) && g[r][c] != 0
      ensures g[r][c] != g[p][q]
    {
      if g[p][q] != 0 {
        assert OnDiagonal(r, c) && OnDiagonal(p, q);
        assert BoxStart(r) == BoxStart(p);
        var numbers := Shuffled(Digits(), draws[BoxStart(p) / 3]);
        var k1 := 3 * (r - BoxStart(r)) + (c - BoxStart(c));
        var k2 := 3 * (p - BoxStart(p)) + (q - BoxStart(q));
        assert k1 != k2;
        assert g[r][c] == numbers[k1] && g[p][q] == numbers[k2];
      }
    }
  }

  // ---------------------------------------------------------------------------
  // The complete solution

  /** The board the generator starts from: the solver's first completion of the seed, or the seed itself if it has none. */
  ghost function CompleteSolution(draws: seq<seq<int>>): Grid
    requires BoxDraws(draws)
  {
    var seed := Seed(draws);
    if Solutions(seed) != [] then Solutions(seed)[0] else seed
  }

  /**
   Seeds an empty board's diagonal boxes and runs the solver on it; the
   solver's verdict is not looked at.
   */
  method GenerateCompleteSolution(draws: seq<seq<int>>) returns (board: array2<int>)
    requires BoxDraws(draws)
    ensures fresh(board)
    ensures Holds(board, CompleteSolution(draws))
  {
    board := new int[9, 9]((i, j) => 0);
    FillDiagonalBoxes(board, draws);
    ghost var seed := Seed(draws);
    assert Holds(board, seed);
    var solved := SolveSudoku(board, seed);
  }

  /**
   When the search from the seed succeeds, the generator's solution is a
   valid solved board that keeps the three diagonal boxes.
   */
  lemma CompleteSolutionValid(draws: seq<seq<int>>)
    requires BoxDraws(draws) && Solutions(Seed(draws)) != []
    ensures ValidSolution(CompleteSolution(draws))
    ensures Agrees(Seed(draws), CompleteSolution(draws))
  {
    SeedConflictFree(draws);
    FirstSolutionValid(Seed(draws));
  }

  // ---------------------------------------------------------------------------
  // Removing cells

  /**
   How many cells to clear: 20, 30 or 40 plus a draw in 0..5 for "easy",
   "medium" and "hard"; any other difficulty counts as "medium". The three
   draws are made in that order whatever the difficulty.
   */
  function TargetRemovals(difficulty: string, easy: int, medium: int, hard: int): (t: int)
    ensures difficulty == "easy" ==> 20 <= t < 26
    ensures difficulty == "hard" ==> 40 <= t < 46
    ensures difficulty != "easy" && difficulty != "hard" ==> 30 <= t < 36
  {
    if difficulty == "easy" then 20 + easy % 6
    else if difficulty == "hard" then 40 + hard % 6
    else 30 + medium % 6
  }

  /** The cells before (r, c) in row-major order. */
  function CellsBefore(r: int, c: int): (cells: seq<(int, int)>)
    requires 0 <= r <= 9 && 0 <= c <= 9 && (r < 9 || c == 0)
    ensures |cells| == 9 * r + c
    decreases r, c
  {
    if c == 0 then (if r == 0 then [] else CellsBefore(r - 1, 9))
    else CellsBefore(r, c - 1) + [(r, c - 1)]
  }

  /** All 81 cells in row-major order. */
  function AllCells(): seq<(int, int)> {
    CellsBefore(9, 0)
  }

  lemma {:induction false} CellsBeforeMembers(r: int, c: int)
    requires 0 <= r <= 9 && 0 <= c <= 9 && (r < 9 || c == 0)
    ensures forall x :: x in CellsBefore(r, c) <==> InRange(x.0, x.1) && Before(x.0, x.1, r, c)
    ensures NoDuplicates(CellsBefore(r, c))
    decreases r, c
  {
    if c == 0 {
      if r > 0 {
        CellsBeforeMembers(r - 1, 9);
      }
    } else {
      CellsBeforeMembers(r, c - 1);
      NoDuplicatesAppend(CellsBefore(r, c - 1), [(r, c - 1)]);
    }
  }

  /** Every position of `order` is a cell. */
  predicate AllInRange(order: seq<(int, int)>) {
    forall k :: 0 <= k < |order| ==> InRange(order[k].0, order[k].1)
  }

  /** The shuffled positions list every cell exactly once. */
  lemma ShuffledCells(draws: seq<int>)
    requires 80 <= |draws|
    ensures forall x :: x in Shuffled(AllCells(), draws) <==> InRange(x.0, x.1)
    ensures NoDuplicates(Shuffled(AllCells(), draws))
    ensures AllInRange(Shuffled(AllCells(), draws))
  {
    CellsBeforeMembers(9, 0);
    ShuffledPermutes(AllCells(), draws);
    var order := Shuffled(AllCells(), draws);
    forall x ensures x in order <==> x in AllCells() {
      calc {
        x in order;
        x in multiset(order);
        x in multiset(AllCells());
        x in AllCells();
      }
    }
    forall k | 0 <= k < |order| ensures InRange(order[k].0, order[k].1) {
      assert order[k] in order;
    }
  }

  /** The order in which removeCells visits the cells: each of the 81 cells once. */
  function VisitOrder(draws: seq<int>): (order: seq<(int, int)>)
    requires 80 <= |draws|
    ensures AllInRange(order) && NoDuplicates(order)
    ensures forall x :: x in order <==> InRange(x.0, x.1)
  {
    ShuffledCells(draws);
    Shuffled(AllCells(), draws)
  }

  /**
   What the removal loop makes of puzzle `h` once it has visited order[..k]
   and kept `removed` clearings: while `removed` is below `target` it visits
   the next cell, clears it, and keeps the clearing exactly when the cleared
   puzzle has one solution.
   */
  ghost function RemoveFrom(h: Grid, target: int, order: seq<(int, int)>, k: int, removed: int): (p: Grid)
    requires IsGrid(h) && AllInRange(order) && 0 <= k <= |order|
    ensures IsGrid(p)
    decreases |order| - k
  {
    if k == |order| || removed >= target then h
    else
      var cleared := Update(h, order[k].0, order[k].1, 0);
      if |Solutions(cleared)| == 1 then RemoveFrom(cleared, target, order, k + 1, removed + 1)
      else RemoveFrom(h, target, order, k + 1, removed)
  }

  /** One turn of the removal loop, before the target is reached. */
  lemma RemoveFromStep(h: Grid, target: int, order: seq<(int, int)>, k: int, removed: int)
    requires IsGrid(h) && AllInRange(order) && 0 <= k < |order| && removed < target
    ensures var cleared := Update(h, order[k].0, order[k].1, 0);
      RemoveFrom(h, target, order, k, removed) ==
        if |Solutions(cleared)| == 1 then RemoveFrom(cleared, target, order, k + 1, removed + 1)
        else RemoveFrom(h, target, order, k + 1, removed)
  {
  }

  /** The puzzle removeCells returns for `board`. */
  ghost function Removed(board: Grid, target: int, order: seq<(int, int)>): (p: Grid)
    requires IsGrid(board) && AllInRange(order)
    ensures IsGrid(p)
  {
    RemoveFrom(board, target, order, 0, 0)
  }

  function Max(a: int, b: int): int {
    if a < b then b else a
  }

  /** Clearing a filled cell adds one empty cell; clearing an empty one changes nothing. */
  lemma ZerosClear(h: Grid, r: int, c: int)
    requires IsGrid(h) && InRange(r, c)
    ensures Zeros(Update(h, r, c, 0)) == Zeros(h) + (if h[r][c] == 0 then 0 else 1)
  {
    var cleared := Update(h, r, c, 0);
    if h[r][c] == 0 {
      GridExtensionality(cleared, h);
    } else {
      UpdateUndone(h, r, c, 0);
      ZerosBelowUpdate(cleared, r, c, h[r][c], 81);
    }
  }

  /** Clearing never contradicts the board: every filled cell left keeps its digit. */
  lemma {:induction false} RemoveFromAgrees(h: Grid, target: int, order: seq<(int, int)>, k: int, removed: int, s: Grid)
    requires IsGrid(h) && AllInRange(order) && 0 <= k <= |order| && Agrees(h, s)
    ensures Agrees(RemoveFrom(h, target, order, k, removed), s)
    decreases |order| - k
  {
    if k < |order| && removed < target {
      RemoveFromStep(h, target, order, k, removed);
      var cleared := Update(h, order[k].0, order[k].1, 0);
      assert Agrees(cleared, s);
      RemoveFromAgrees(cleared, target, order, k + 1, removed + 1, s);
      RemoveFromAgrees(h, target, order, k + 1, removed, s);
    }
  }

  /** A puzzle with one solution keeps exactly one through the removal loop. */
  lemma {:induction false} RemoveFromUnique(h: Grid, target: int, order: seq<(int, int)>, k: int, removed: int)
    requires IsGrid(h) && AllInRange(order) && 0 <= k <= |order| && |Solutions(h)| == 1
    ensures |Solutions(RemoveFrom(h, target, order, k, removed))| == 1
    decreases |order| - k
  {
    if k < |order| && removed < target {
      RemoveFromStep(h, target, order, k, removed);
      var cleared := Update(h, order[k].0, order[k].1, 0);
      if |Solutions(cleared)| == 1 {
        RemoveFromUnique(cleared, target, order, k + 1, removed + 1);
      } else {
        RemoveFromUnique(h, target, order, k + 1, removed);
      }
    }
  }

  /** The loop clears at most target - removed more cells. */
  lemma {:induction false} RemoveFromBound(h: Grid, target: int, order: seq<(int, int)>, k: int, removed: int)
    requires IsGrid(h) && AllInRange(order) && 0 <= k <= |order|
    ensures Zeros(RemoveFrom(h, target, order, k, removed)) <= Zeros(h) + Max(target - removed, 0)
    decreases |order| - k
  {
    if k < |order| && removed < target {
      RemoveFromStep(h, target, order, k, removed);
      var cleared := Update(h, order[k].0, order[k].1, 0);
      if |Solutions(cleared)| == 1 {
        ZerosClear(h, order[k].0, order[k].1);
        RemoveFromBound(cleared, target, order, k + 1, removed + 1);
      } else {
        RemoveFromBound(h, target, order, k + 1, removed);
      }
    }
  }

  lemma SingletonOf<T>(xs: seq<T>, x: T)
    requires |xs| == 1 && x in xs
    ensures xs == [x]
  {
  }

  /** From a solved board, the generator's puzzle has that board as its only solution. */
  lemma RemovedUnique(board: Grid, target: int, order: seq<(int, int)>)
    requires ValidSolution(board) && AllInRange(order)
    ensures Solutions(Removed(board, target, order)) == [board]
  {
    var puzzle := Removed(board, target, order);
    SolutionsOfFull(board);
    RemoveFromUnique(board, target, order, 0, 0);
    RemovedAgrees(board, target, order);
    SolutionsComplete(puzzle, board);
    SingletonOf(Solutions(puzzle), board);
  }

  /** Every digit the puzzle shows is the board's digit there. */
  lemma RemovedAgrees(board: Grid, target: int, order: seq<(int, int)>)
    requires IsGrid(board) && AllInRange(order)
    ensures Agrees(Removed(board, target, order), board)
  {
    assert Agrees(board, board);
    RemoveFromAgrees(board, target, order, 0, 0, board);
  }

  /** From a full board, the puzzle has at most `target` empty cells. */
  lemma RemovedBound(board: Grid, target: int, order: seq<(int, int)>)
    requires Full(board) && AllInRange(order)
    ensures Zeros(Removed(board, target, order)) <= Max(target, 0)
  {
    RemoveFromBound(board, target, order, 0, 0);
    ZerosOfFull(board, 81);
  }

  lemma {:induction false} ZerosOfFull(g: Grid, k: int)
    requires Full(g) && 0 <= k <= 81
    ensures ZerosBelow(g, k) == 0
  {
    if k > 0 {
      ZerosOfFull(g, k - 1);
      var i := k - 1;
      assert i == 9 * (i / 9) + i % 9;
    }
  }

  /** A grid whose givens all come from a solved board is a board without conflicts. */
  lemma AgreesWithSolution(g: Grid, s: Grid)
    requires Agrees(g, s) && ValidSolution(s)
    ensures IsBoard(g) && ConflictFree(g)
  {
  }

  lemma TwoMembers<T>(xs: seq<T>, a: T, b: T)
    requires a in xs && b in xs && a != b
    ensures |xs| >= 2
  {
  }

  /**
   Clearing givens never loses a solution: if `b` has two solutions and its
   givens come from a solved board, a grid `a` with fewer givens has two too.
   */
  lemma FewerGivensKeepSolutions(a: Grid, b: Grid, s: Grid)
    requires Agrees(a, b) && Agrees(b, s) && ValidSolution(s) && |Solutions(b)| >= 2
    ensures |Solutions(a)| >= 2
  {
    AgreesWithSolution(b, s);
    SolutionsDistinct(b);
    var s0, s1 := Solutions(b)[0], Solutions(b)[1];
    SolutionsSound(b, s0);
    SolutionsSound(b, s1);
    AgreesTransitive(a, b, s0);
    AgreesTransitive(a, b, s1);
    SolutionsComplete(a, s0);
    SolutionsComplete(a, s1);
    TwoMembers(Solutions(a), s0, s1);
  }

  /** The cells order[k..] are all filled in `h`. */
  ghost predicate FilledFrom(h: Grid, order: seq<(int, int)>, k: int)
    requires IsGrid(h) && AllInRange(order) && 0 <= k <= |order|
  {
    forall i :: k <= i < |order| ==> h[order[i].0][order[i].1] != 0
  }

  /** Every cell of order[..k] still filled in `h` is needed: clearing it leaves two solutions or more. */
  ghost predicate NeededBefore(h: Grid, order: seq<(int, int)>, k: int)
    requires IsGrid(h) && AllInRange(order) && 0 <= k <= |order|
  {
    forall i :: 0 <= i < k && h[order[i].0][order[i].1] != 0 ==>
      |Solutions(Update(h, order[i].0, order[i].1, 0))| >= 2
  }

  /** A kept clearing of order[k] keeps the cells after it filled and the visited givens needed. */
  lemma KeptTurn(board: Grid, h: Grid, order: seq<(int, int)>, k: int)
    requires ValidSolution(board) && Agrees(h, board)
    requires AllInRange(order) && NoDuplicates(order) && 0 <= k < |order|
    requires FilledFrom(h, order, k) && NeededBefore(h, order, k)
    ensures var cleared := Update(h, order[k].0, order[k].1, 0);
      Agrees(cleared, board) && FilledFrom(cleared, order, k + 1) && NeededBefore(cleared, order, k + 1)
  {
    var cleared := Update(h, order[k].0, order[k].1, 0);
    forall i | k + 1 <= i < |order|
      ensures cleared[order[i].0][order[i].1] != 0
    {
      assert order[i] != order[k];
    }
    forall i | 0 <= i < k + 1 && cleared[order[i].0][order[i].1] != 0
      ensures |Solutions(Update(cleared, order[i].0, order[i].1, 0))| >= 2
    {
      assert order[i] != order[k];
      var x, y := order[i].0, order[i].1;
      assert Agrees(Update(h, x, y, 0), board);
      FewerGivensKeepSolutions(Update(cleared, x, y, 0), Update(h, x, y, 0), board);
    }
  }

  /** A restored cell order[k] is needed, since the cleared puzzle keeps the board as one solution of several. */
  lemma RestoredTurn(board: Grid, h: Grid, order: seq<(int, int)>, k: int)
    requires ValidSolution(board) && Agrees(h, board)
    requires AllInRange(order) && 0 <= k < |order|
    requires FilledFrom(h, order, k) && NeededBefore(h, order, k)
    requires |Solutions(Update(h, order[k].0, order[k].1, 0))| != 1
    ensures FilledFrom(h, order, k + 1) && NeededBefore(h, order, k + 1)
  {
    var cleared := Update(h, order[k].0, order[k].1, 0);
    assert Agrees(cleared, board);
    SolutionsComplete(cleared, board);
  }

  /**
   A puzzle with one solution, cleared in a duplicate-free `order` whose
   unvisited cells are filled and whose visited givens are needed: if the
   loop ends with fewer than `target` empty cells, every cell of `order` it
   leaves filled is needed.
   */
  lemma {:induction false} RemoveFromMinimal(board: Grid, h: Grid, target: int, order: seq<(int, int)>, k: int, removed: int)
    requires ValidSolution(board) && Agrees(h, board) && |Solutions(h)| == 1
    requires AllInRange(order) && NoDuplicates(order) && 0 <= k <= |order| && removed <= Zeros(h)
    requires FilledFrom(h, order, k) && NeededBefore(h, order, k)
    ensures var p := RemoveFrom(h, target, order, k, removed);
      Zeros(p) < target ==> NeededBefore(p, order, |order|)
    decreases |order| - k, 1
  {
    if k < |order| && removed < target {
      RemoveFromStep(h, target, order, k, removed);
      if |Solutions(Update(h, order[k].0, order[k].1, 0))| == 1 {
        KeptMinimal(board, h, target, order, k, removed);
      } else {
        RestoredTurn(board, h, order, k);
        RemoveFromMinimal(board, h, target, order, k + 1, removed);
      }
    }
  }

  /** The kept-clearing turn of RemoveFromMinimal: the rest of the loop runs on the cleared puzzle. */
  lemma {:induction false} KeptMinimal(board: Grid, h: Grid, target: int, order: seq<(int, int)>, k: int, removed: int)
    requires ValidSolution(board) && Agrees(h, board)
    requires AllInRange(order) && NoDuplicates(order) && 0 <= k < |order| && removed <= Zeros(h)
    requires FilledFrom(h, order, k) && NeededBefore(h, order, k)
    requires |Solutions(Update(h, order[k].0, order[k].1, 0))| == 1
    ensures var p := RemoveFrom(Update(h, order[k].0, order[k].1, 0), target, order, k + 1, removed + 1);
      Zeros(p) < target ==> NeededBefore(p, order, |order|)
    decreases |order| - k, 0
  {
    var cleared := Update(h, order[k].0, order[k].1, 0);
    ZerosClear(h, order[k].0, order[k].1);
    KeptTurn(board, h, order, k);
    RemoveFromMinimal(board, cleared, target, order, k + 1, removed + 1);
  }

  /**
   The other half of the target: when removeCells stops short of it, every
   given left is needed, because clearing any one of them gives the puzzle a
   second solution.
   */
  lemma RemovedMinimal(board: Grid, target: int, order: seq<(int, int)>)
    requires ValidSolution(board) && AllInRange(order) && NoDuplicates(order)
    requires forall x :: x in order <==> InRange(x.0, x.1)
    requires Zeros(Removed(board, target, order)) < target
    ensures var puzzle := Removed(board, target, order);
      forall r, c :: InRange(r, c) && puzzle[r][c] != 0 ==> |Solutions(Update(puzzle, r, c, 0))| >= 2
  {
    var puzzle := Removed(board, target, order);
    SolutionsOfFull(board);
    ZerosOfFull(board, 81);
    assert Agrees(board, board);
    assert FilledFrom(board, order, 0);
    RemoveFromMinimal(board, board, target, order, 0, 0);
    forall r, c | InRange(r, c) && puzzle[r][c] != 0
      ensures |Solutions(Update(puzzle, r, c, 0))| >= 2
    {
      assert (r, c) in order;
      var i :| 0 <= i < |order| && order[i] == (r, c);
    }
  }

  /** A fresh array with the same cells: the deep copy of the board. */
  method CopyBoard(board: array2<int>, ghost g: Grid) returns (copy: array2<int>)
    requires Holds(board, g)
    ensures fresh(copy)
    ensures Holds(copy, g)
  {
    copy := new int[9, 9];
    for r := 0 to 9
      invariant forall p, q :: 0 <= p < r && 0 <= q < 9 ==> copy[p, q] == g[p][q]
    {
      for c := 0 to 9
        invariant forall p, q :: ((0 <= p < r && 0 <= q < 9) || (p == r && 0 <= q < c)) ==> copy[p, q] == g[p][q]
      {
        copy[r, c] := board[r, c];
      }
    }
  }

  /**
   One turn of the removal loop: clear (row, col), count the solutions of a
   copy up to 2, and put the digit back unless the count is exactly 1.
   */
  method TryRemoval(puzzle: array2<int>, row: int, col: int, ghost h: Grid) returns (kept: bool)
    requires Holds(puzzle, h) && InRange(row, col)
    modifies puzzle
    ensures kept == (|Solutions(Update(h, row, col, 0))| == 1)
    ensures kept ==> Holds(puzzle, Update(h, row, col, 0))
    ensures !kept ==> Holds(puzzle, h)
  {
    var originalValue := puzzle[row, col];
    ghost var cleared := Update(h, row, col, 0);
    SetCell(puzzle, row, col, 0, h);
    var testPuzzle := CopyBoard(puzzle, cleared);
    var count := CountSolutions(testPuzzle, 2, cleared);
    kept := count == 1;
    if !kept {
      SetCell(puzzle, row, col, originalValue, cleared);
      UpdateUndone(h, row, col, 0);
    }
  }

  /** Lists the 81 cells in row-major order into a fresh array. */
  method ListCells() returns (positions: array<(int, int)>)
    ensures fresh(positions)
    ensures positions[..] == AllCells()
  {
    positions := new (int, int)[81];
    var n := 0;
    for row := 0 to 9
      invariant n == 9 * row
      invariant positions[..n] == CellsBefore(row, 0)
    {
      for col := 0 to 9
        invariant n == 9 * row + col
        invariant positions[..n] == CellsBefore(row, col)
      {
        positions[n] := (row, col);
        n := n + 1;
      }
    }
  }

  /**
   The loop of removeCells: visits the cells in the order of `positions`,
   stopping once `targetRemovals` clearings were kept.
   */
  method ClearCells(puzzle: array2<int>, positions: array<(int, int)>, targetRemovals: int, ghost g: Grid)
    requires Holds(puzzle, g) && AllInRange(positions[..])
    modifies puzzle
    ensures Holds(puzzle, Removed(g, targetRemovals, positions[..]))
  {
    ghost var order := positions[..];
    ghost var h := g;
    var removed := 0;
    var k := 0;
    while k < positions.Length
      invariant 0 <= k <= positions.Length
      invariant 0 <= removed <= Max(targetRemovals, 0)
      invariant Holds(puzzle, h)
      invariant RemoveFrom(h, targetRemovals, order, k, removed) == RemoveFrom(g, targetRemovals, order, 0, 0)
    {
      if removed >= targetRemovals {
        break;
      }
      var (row, col) := positions[k];
      RemoveFromStep(h, targetRemovals, order, k, removed);
      var kept := TryRemoval(puzzle, row, col, h);
      if kept {
        h := Update(h, row, col, 0);
        removed := removed + 1;
      }
      k := k + 1;
    }
  }

  /**
   Copies `board`, lists its cells, shuffles them and clears cells in that
   order as long as the puzzle keeps one solution.
   */
  method RemoveCells(board: array2<int>, difficulty: string, easy: int, medium: int, hard: int, draws: seq<int>, ghost g: Grid)
    returns (puzzle: array2<int>)
    requires Holds(board, g) && 80 <= |draws|
    ensures fresh(puzzle)
    ensures Holds(puzzle, Removed(g, TargetRemovals(difficulty, easy, medium, hard), VisitOrder(draws)))
  {
    var targetRemovals := TargetRemovals(difficulty, easy, medium, hard);
    puzzle := CopyBoard(board, g);
    var positions := ListCells();
    ShuffleArray(positions, draws);
    assert positions[..] == VisitOrder(draws);
    ClearCells(puzzle, positions, targetRemovals, g);
  }

  /**
   A puzzle and its solution: the complete solution, and the puzzle cleared
   from it for the given difficulty.
   */
  method GeneratePuzzle(difficulty: string, boxDraws: seq<seq<int>>, easy: int, medium: int, hard: int, draws: seq<int>)
    returns (puzzle: array2<int>, solution: array2<int>)
    requires BoxDraws(boxDraws) && 80 <= |draws|
    ensures fresh(puzzle) && fresh(solution) && puzzle != solution
    ensures Holds(solution, CompleteSolution(boxDraws))
    ensures Holds(puzzle, Removed(CompleteSolution(boxDraws), TargetRemovals(difficulty, easy, medium, hard), VisitOrder(draws)))
  {
    solution := GenerateCompleteSolution(boxDraws);
    puzzle := RemoveCells(solution, difficulty, easy, medium, hard, draws, CompleteSolution(boxDraws));
  }

  /**
   Whenever the solver completes the seed, the generated puzzle has the
   generated solution as its only solution, shows only digits of it, and has
   at most as many empty cells as the difficulty asks to clear.
   */
  lemma GeneratedPuzzleUnique(difficulty: string, boxDraws: seq<seq<int>>, easy: int, medium: int, hard: int, draws: seq<int>)
    requires BoxDraws(boxDraws) && 80 <= |draws| && Solutions(Seed(boxDraws)) != []
    ensures ValidSolution(CompleteSolution(boxDraws))
    ensures var puzzle := Removed(CompleteSolution(boxDraws), TargetRemovals(difficulty, easy, medium, hard), VisitOrder(draws));
      Solutions(puzzle) == [CompleteSolution(boxDraws)] &&
      Agrees(puzzle, CompleteSolution(boxDraws)) &&
      Zeros(puzzle) <= TargetRemovals(difficulty, easy, medium, hard) &&
      (Zeros(puzzle) < TargetRemovals(difficulty, easy, medium, hard) ==>
        forall r, c :: InRange(r, c) && puzzle[r][c] != 0 ==> |Solutions(Update(puzzle, r, c, 0))| >= 2)
  {
    CompleteSolutionValid(boxDraws);
    var solution, target, order := CompleteSolution(boxDraws), TargetRemovals(difficulty, easy, medium, hard), VisitOrder(draws);
    RemovedUnique(solution, target, order);
    RemovedAgrees(solution, target, order);
    RemovedBound(solution, target, order);
    if Zeros(Removed(solution, target, order)) < target {
      RemovedMinimal(solution, target, order);
    }
  }
}
