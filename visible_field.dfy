/**
 * The visible field: what the player sees of a mine field, one status per
 * square, plus the flag recording that a mine was uncovered. Its operations
 * are the player's moves (cycling guesses, uncovering) and the end-of-game
 * test, which also rewrites the board for the final reveal.
 */
module VisibleFields {
  import opened Grids
  import opened Squares
  import opened Boards
  import opened MineFields
  import opened FloodFill

  class VisibleField {
    /** The mine field being displayed; the caller shares it. */
    const mineField: MineField
    /** status[r, c] is what the player sees at (r, c). */
    const status: array2<int>
    /** Set once a mine has been uncovered. */
    var failed: bool

    ghost predicate Valid()
      reads status
    {
      && mineField.Valid()
      && status.Length0 == mineField.mines.Length0
      && status.Length1 == mineField.mines.Length1
      && forall r, c {:trigger status[r, c]} | InBounds(status.Length0, status.Length1, r, c) :: IsStatus(status[r, c])
    }

    /** The abstract state: the board the player sees. */
    ghost function Grid(): Board
      reads status
    {
      Snapshot(status)
    }

    /** The squares holding a mine. */
    ghost function Mines(): set<Cell>
      reads mineField.mines
    {
      mineField.MineCells()
    }

    /** A display of mineField with every square covered, no guesses, and the game not lost. */
    constructor (mineField: MineField)
      requires mineField.Valid()
      ensures Valid() && fresh(status) && this.mineField == mineField && !failed
      ensures AllAre(Grid(), status.Length0, status.Length1, Covered)
      ensures GuessCells(Grid(), status.Length0, status.Length1) == {}
    {
      this.mineField := mineField;
      var rowsNum := mineField.NumRows();
      var colsNum := mineField.NumCols();
      var a := new int[rowsNum, colsNum];
      for i := 0 to rowsNum
        invariant forall r, c | 0 <= r < i && 0 <= c < colsNum :: a[r, c] == Covered
      {
        for j := 0 to colsNum
          invariant forall r, c | 0 <= r < i && 0 <= c < colsNum :: a[r, c] == Covered
          invariant forall c | 0 <= c < j :: a[i, c] == Covered
        {
          a[i, j] := Covered;
        }
      }
      status := a;
      failed := false;
      new;
      AllCoveredCells(Grid(), rowsNum, colsNum);
    }

    /** Back to the initial display of the same field, whose mines are cleared. */
    method ResetGameDisplay()
      requires Valid()
      modifies this, status, mineField.mines
      ensures Valid() && !failed
      ensures AllAre(Grid(), status.Length0, status.Length1, Covered)
      ensures GuessCells(Grid(), status.Length0, status.Length1) == {}
      ensures Mines() == {} && mineField.Stocked()
    {
      mineField.ResetEmpty();
      var rowsNum := status.Length0;
      var colsNum := status.Length1;
      for i := 0 to rowsNum
        modifies status
        invariant forall r, c | 0 <= r < i && 0 <= c < colsNum :: status[r, c] == Covered
      {
        for j := 0 to colsNum
          modifies status
          invariant forall r, c | 0 <= r < i && 0 <= c < colsNum :: status[r, c] == Covered
          invariant forall c | 0 <= c < j :: status[i, c] == Covered
        {
          status[i, j] := Covered;
        }
      }
      failed := false;
      AllCoveredCells(Grid(), rowsNum, colsNum);
    }

    /** The status of (row, col): one of the values the encoding admits. */
    function GetStatus(row: int, col: int): (v: int)
      requires Valid() && mineField.InRange(row, col)
      reads status
      ensures IsStatus(v)
      ensures v == Grid()[row][col]
    {
      status[row, col]
    }

    /** Whether (row, col) is uncovered: false exactly for the three covered states, which are the negative ones. */
    predicate IsUncovered(row: int, col: int)
      requires Valid() && mineField.InRange(row, col)
      reads status
      ensures IsUncovered(row, col) <==> IsUncoveredStatus(Grid()[row][col])
      ensures IsUncovered(row, col) <==> status[row, col] >= 0
    {
      if status[row, col] == Covered then false
      else if status[row, col] == MineGuess then false
      else if status[row, col] == Question then false
      else true
    }

    /** The target mine count less the number of guesses; negative when the player has over-guessed. */
    method NumMinesLeft() returns (left: int)
      requires Valid()
      ensures left == mineField.NumMines() - |GuessCells(Grid(), status.Length0, status.Length1)|
    {
      var rowsNum := status.Length0;
      var colsNum := status.Length1;
      ghost var s := Grid();
      var mineGuessNum := 0;
      for i := 0 to rowsNum
        invariant mineGuessNum == GuessBefore(s, rowsNum, colsNum, i, 0)
      {
        for j := 0 to colsNum
          invariant mineGuessNum == GuessBefore(s, rowsNum, colsNum, i, j)
        {
          assert s[i][j] == status[i, j];
          if status[i, j] == MineGuess {
            mineGuessNum := mineGuessNum + 1;
          }
        }
      }
      GuessTotal(s, rowsNum, colsNum);
      left := mineField.NumMines() - mineGuessNum;
    }

    /** Advances the guess cycle of a covered square; an uncovered square and every other square are left alone. */
    method CycleGuess(row: int, col: int)
      requires Valid() && mineField.InRange(row, col)
      modifies status
      ensures Valid()
      ensures Grid() == Cycled(old(Grid()), status.Length0, status.Length1, row, col)
    {
      if status[row, col] == Covered {
        status[row, col] := MineGuess;
      } else if status[row, col] == MineGuess {
        status[row, col] := Question;
      } else if status[row, col] == Question {
        status[row, col] := Covered;
      }
      SameBoard(Grid(), Cycled(old(Grid()), status.Length0, status.Length1, row, col), status.Length0, status.Length1);
    }

    /**
     * Uncovers (row, col). On a mine: that square explodes, the game is lost,
     * and the result is false. Otherwise: the flood fill from (row, col), and
     * the result is true.
     */
    method Uncover(row: int, col: int) returns (safe: bool, ghost trace: seq<Cell>, ghost parent: seq<int>)
      requires Valid() && mineField.InRange(row, col)
      modifies this, status
      ensures Valid()
      ensures safe <==> (row, col) !in Mines()
      ensures !safe ==> failed && UpdatedAt(old(Grid()), Grid(), status.Length0, status.Length1, (row, col), ExplodedMine)
      ensures safe ==> failed == old(failed)
      ensures safe ==> Filled(Mines(), old(Grid()), Grid(), status.Length0, status.Length1, (row, col), trace, parent)
    {
      if mineField.HasMine(row, col) {
        status[row, col] := ExplodedMine;
        failed := true;
        return false, [], [];
      } else {
        trace, parent := UncoverHelper(row, col);
        return true, trace, parent;
      }
    }

    /**
     * The flood fill: opens (row, col) when it is in range, covered, not
     * guessed and mine-free, and when it shows 0 goes on to its eight
     * neighbours. Each call that opens a square leaves fewer squares to open.
     */
    method UncoverHelper(row: int, col: int) returns (ghost trace: seq<Cell>, ghost parent: seq<int>)
      requires Valid()
      modifies status
      ensures Valid()
      ensures Filled(old(Mines()), old(Grid()), Grid(), status.Length0, status.Length1, (row, col), trace, parent)
      decreases Pending(Grid(), status.Length0, status.Length1), 1
    {
      ghost var s0 := Grid();
      ghost var mines := Mines();
      ghost var rows, cols := status.Length0, status.Length1;
      if !mineField.InRange(row, col) || status[row, col] == MineGuess
         || mineField.HasMine(row, col) || IsUncovered(row, col) {
        FillNone(mines, s0, rows, cols, (row, col));
        return [], [];
      }
      assert CanOpen(mines, s0, rows, cols, (row, col));
      var adjacent := mineField.NumAdjacentMines(row, col);
      status[row, col] := adjacent;
      ghost var s1 := Grid();
      assert UpdatedAt(s0, s1, rows, cols, (row, col), adjacent);
      assert Mines() == mines && Valid();
      if status[row, col] == 0 {
        PendingOpened(mines, s0, s1, rows, cols, (row, col));
        trace, parent := UncoverNeighbours(row, col, s0);
      } else {
        FillSingle(mines, s0, s1, rows, cols, (row, col));
        trace, parent := [(row, col)], [0];
      }
    }

    /** The loop of uncoverHelper over the eight neighbours of a square just opened as a 0. */
    method UncoverNeighbours(row: int, col: int, ghost s0: Board) returns (ghost trace: seq<Cell>, ghost parent: seq<int>)
      requires Valid() && IsBoard(s0, status.Length0, status.Length1)
      requires CanOpen(Mines(), s0, status.Length0, status.Length1, (row, col))
      requires AdjacentMines(Mines(), row, col) == 0
      requires UpdatedAt(s0, Grid(), status.Length0, status.Length1, (row, col), 0)
      modifies status
      ensures Valid()
      ensures Filled(old(Mines()), s0, Grid(), status.Length0, status.Length1, (row, col), trace, parent)
      decreases Pending(Grid(), status.Length0, status.Length1) + {(row, col)}, 0
    {
      ghost var mines := Mines();
      ghost var rows, cols := status.Length0, status.Length1;
      ghost var entry := Pending(Grid(), rows, cols) + {(row, col)};
      FillStart(mines, s0, Grid(), rows, cols, (row, col));
      trace, parent := [(row, col)], [0];
      var searchRange := |RowOffsets|;
      for i := 0 to searchRange
        invariant Valid()
        invariant FillingFrom(mines, s0, Grid(), rows, cols, (row, col), i, trace, parent)
        invariant Pending(Grid(), rows, cols) <= entry - {(row, col)}
      {
        var curX := row + RowOffsets[i];
        var curY := col + ColOffsets[i];
        assert curX == Step(row, col, i).0 && curY == Step(row, col, i).1;
        ghost var s := Grid();
        ghost var t: seq<Cell>, p: seq<int>;
        t, p := UncoverHelper(curX, curY);
        assert Mines() == mines;
        ghost var s1 := Grid();
        assert Filled(mines, s, s1, rows, cols, (curX, curY), t, p);
        FillStep(mines, s0, s, s1, rows, cols, (row, col), i, trace, parent, t, p);
        PendingKept(mines, s, s1, rows, cols);
        trace, parent := trace + t, parent + Shifted(p, |trace|);
      }
      FillEnd(mines, s0, Grid(), rows, cols, (row, col), trace, parent);
    }

    /**
     * Whether the game is over. A lost game is over, and its board gets the
     * loss reveal. Otherwise the game is won when the squares still COVERED or
     * MINE_GUESS are exactly the target number of mined squares and no other;
     * a won board gets the win reveal, and an unfinished board is unchanged.
     */
    method IsGameOver() returns (over: bool)
      requires Valid()
      modifies status
      ensures Valid()
      ensures failed ==> over && Grid() == RevealLoss(old(Grid()), old(Mines()), status.Length0, status.Length1)
      ensures !failed ==> (over <==> Wins(old(Mines()), mineField.NumMines(), old(Grid()), status.Length0, status.Length1))
      ensures !failed && over ==> Grid() == RevealWin(old(Grid()), old(Mines()), status.Length0, status.Length1)
      ensures !failed && !over ==> Grid() == old(Grid())
    {
      ghost var s, mines := Grid(), Mines();
      ghost var rows, cols := status.Length0, status.Length1;
      if failed == true {
        LoseCondition();
        assert Grid() == RevealLoss(s, mines, rows, cols);
        return true;
      }
      var countMine, countNoMine := CountHidden();
      WinsByCounts(mines, mineField.NumMines(), s, rows, cols, countMine, countNoMine);
      if countMine == mineField.NumMines() && countNoMine == 0 {
        WinCondition();
        assert Grid() == RevealWin(s, mines, rows, cols);
        return true;
      }
      assert Grid() == s;
      return false;
    }

    /**
     * The two totals isGameOver compares: the squares still COVERED or
     * MINE_GUESS that hold a mine, and those that do not.
     */
    method CountHidden() returns (countMine: int, countNoMine: int)
      requires Valid()
      ensures countMine == |HiddenCells(Grid(), status.Length0, status.Length1) * Mines()|
      ensures countNoMine == |HiddenCells(Grid(), status.Length0, status.Length1) - Mines()|
    {
      var rowsNum := status.Length0;
      var colsNum := status.Length1;
      ghost var s := Grid();
      ghost var mines := Mines();
      countMine, countNoMine := 0, 0;
      for i := 0 to rowsNum
        invariant countMine == HiddenBefore(s, rowsNum, colsNum, mines, true, i, 0)
        invariant countNoMine == HiddenBefore(s, rowsNum, colsNum, mines, false, i, 0)
      {
        for j := 0 to colsNum
          invariant countMine == HiddenBefore(s, rowsNum, colsNum, mines, true, i, j)
          invariant countNoMine == HiddenBefore(s, rowsNum, colsNum, mines, false, i, j)
        {
          assert s[i][j] == status[i, j];
          if mineField.HasMine(i, j) {
            if status[i, j] == Covered || status[i, j] == MineGuess {
              countMine := countMine + 1;
            }
          } else {
            if status[i, j] == Covered || status[i, j] == MineGuess {
              countNoMine := countNoMine + 1;
            }
          }
        }
      }
      HiddenTotals(s, rowsNum, colsNum, mines);
    }

    /** The loss reveal: unguessed mines are shown and wrong guesses marked. */
    method LoseCondition()
      requires Valid()
      modifies status
      ensures Valid()
      ensures Grid() == RevealLoss(old(Grid()), old(Mines()), status.Length0, status.Length1)
    {
      var rowsNum := status.Length0;
      var colsNum := status.Length1;
      ghost var s := Grid();
      ghost var mines := Mines();
      for i := 0 to rowsNum
        invariant forall r, c {:trigger status[r, c]} | InBounds(rowsNum, colsNum, r, c) ::
                    status[r, c] == if r < i then LossReveal(s[r][c], (r, c) in mines) else s[r][c]
      {
        for j := 0 to colsNum
          invariant forall r, c {:trigger status[r, c]} | InBounds(rowsNum, colsNum, r, c) ::
                      status[r, c] == if r < i || (r == i && c < j) then LossReveal(s[r][c], (r, c) in mines) else s[r][c]
        {
          if status[i, j] == Covered || GetStatus(i, j) == Question {
            if mineField.HasMine(i, j) {
              status[i, j] := Mine;
            }
          }
          if status[i, j] == MineGuess {
            if !mineField.HasMine(i, j) {
              status[i, j] := IncorrectGuess;
            }
          }
        }
      }
      SameBoard(Grid(), RevealLoss(s, mines, rowsNum, colsNum), rowsNum, colsNum);
    }

    /** The win reveal: every mined square is shown as guessed. */
    method WinCondition()
      requires Valid()
      modifies status
      ensures Valid()
      ensures Grid() == RevealWin(old(Grid()), old(Mines()), status.Length0, status.Length1)
    {
      var rowsNum := status.Length0;
      var colsNum := status.Length1;
      ghost var s := Grid();
      ghost var mines := Mines();
      for i := 0 to rowsNum
        invariant forall r, c {:trigger status[r, c]} | InBounds(rowsNum, colsNum, r, c) ::
                    status[r, c] == if r < i then WinReveal(s[r][c], (r, c) in mines) else s[r][c]
      {
        for j := 0 to colsNum
          invariant forall r, c {:trigger status[r, c]} | InBounds(rowsNum, colsNum, r, c) ::
                      status[r, c] == if r < i || (r == i && c < j) then WinReveal(s[r][c], (r, c) in mines) else s[r][c]
        {
          if mineField.HasMine(i, j) {
            status[i, j] := MineGuess;
          }
        }
      }
      SameBoard(Grid(), RevealWin(s, mines, rowsNum, colsNum), rowsNum, colsNum);
    }
  }
}
