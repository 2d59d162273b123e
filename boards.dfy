/**
 * The visible grid as a value: a rows x cols board of statuses, the sets of
 * squares that the game counts (guesses, squares still hidden), the end-of-game
 * reveals applied to a whole board, and the guess cycle applied to one square.
 */
module Boards {
  import opened Grids
  import opened Squares

  /** Statuses row by row: s[r][c] is the status of square (r, c). */
  type Board = seq<seq<int>>

  ghost predicate IsBoard(s: Board, rows: int, cols: int) {
    |s| == rows && 0 <= cols && forall r | 0 <= r < rows :: |s[r]| == cols
  }

  /** The status array seen as a board. */
  ghost function Snapshot(a: array2<int>): (s: Board)
    reads a
    ensures IsBoard(s, a.Length0, a.Length1)
    ensures forall r, c {:trigger s[r][c]} {:trigger a[r, c]} | InBounds(a.Length0, a.Length1, r, c) :: s[r][c] == a[r, c]
  {
    seq(a.Length0, r requires 0 <= r < a.Length0 reads a =>
      seq(a.Length1, c requires 0 <= c < a.Length1 reads a => a[r, c]))
  }

  /** Two boards of the same shape that agree on every square are equal. */
  lemma SameBoard(s: Board, t: Board, rows: int, cols: int)
    requires IsBoard(s, rows, cols) && IsBoard(t, rows, cols)
    requires forall r, c {:trigger s[r][c]} {:trigger t[r][c]} | InBounds(rows, cols, r, c) :: s[r][c] == t[r][c]
    ensures s == t
  {
    forall r | 0 <= r < rows
      ensures s[r] == t[r]
    {
      assert forall c | 0 <= c < cols :: s[r][c] == t[r][c];
    }
  }

  /** Every square of the board shows `v`. */
  ghost predicate AllAre(s: Board, rows: int, cols: int, v: int)
    requires IsBoard(s, rows, cols)
  {
    forall r, c {:trigger s[r][c]} | InBounds(rows, cols, r, c) :: s[r][c] == v
  }

  /** The squares marked as guessed mines. */
  ghost function GuessCells(s: Board, rows: int, cols: int): set<Cell>
    requires IsBoard(s, rows, cols)
  {
    set r, c | 0 <= r < rows && 0 <= c < cols && s[r][c] == MineGuess :: (r, c)
  }

  /**
   * The squares isGameOver counts as not yet dealt with: COVERED or
   * MINE_GUESS (QUESTION squares are counted in neither of its totals).
   */
  ghost function HiddenCells(s: Board, rows: int, cols: int): set<Cell>
    requires IsBoard(s, rows, cols)
  {
    set r, c | 0 <= r < rows && 0 <= c < cols && (s[r][c] == Covered || s[r][c] == MineGuess) :: (r, c)
  }

  /**
   * The win test of isGameOver: the hidden mined squares number exactly the
   * target mine count, and no square without a mine is hidden.
   */
  ghost predicate Wins(mines: set<Cell>, target: int, s: Board, rows: int, cols: int)
    requires IsBoard(s, rows, cols)
  {
    |HiddenCells(s, rows, cols) * mines| == target && HiddenCells(s, rows, cols) - mines == {}
  }

  /** The squares in any of the three covered states. */
  ghost function CoveredCells(s: Board, rows: int, cols: int): set<Cell>
    requires IsBoard(s, rows, cols)
  {
    set r, c | 0 <= r < rows && 0 <= c < cols && !IsUncoveredStatus(s[r][c]) :: (r, c)
  }

  /**
   * The win the documentation of uncover describes (all the squares without
   * a mine opened), counted as isGameOver counts, but over every covered
   * state rather than COVERED and MINE_GUESS alone.
   */
  ghost predicate WinsCorrected(mines: set<Cell>, target: int, s: Board, rows: int, cols: int)
    requires IsBoard(s, rows, cols)
  {
    |CoveredCells(s, rows, cols) * mines| == target && CoveredCells(s, rows, cols) - mines == {}
  }

  /** Two such totals pin the counted squares down to the mined squares, when the target is the number of mines. */
  lemma CountsPinDown<T>(h: set<T>, mines: set<T>)
    ensures |h * mines| == |mines| && h - mines == {} <==> h == mines
  {
    if |h * mines| == |mines| && h - mines == {} {
      SubsetSameSize(h * mines, mines);
      forall x | x in h
        ensures x in mines
      {
        assert x !in h - mines;
      }
      SameElements(h, h * mines);
    }
    if h == mines {
      assert h * mines == mines;
      assert h - mines == {};
    }
  }

  /**
   * With as many mines as the target, isGameOver's win test holds exactly
   * when the squares still COVERED or MINE_GUESS are the mined squares: a
   * safe square marked QUESTION does not stop a win, and a mined square
   * marked QUESTION prevents one.
   */
  lemma WinsMeaning(mines: set<Cell>, target: int, s: Board, rows: int, cols: int)
    requires IsBoard(s, rows, cols) && |mines| == target
    ensures Wins(mines, target, s, rows, cols) <==> HiddenCells(s, rows, cols) == mines
  {
    CountsPinDown(HiddenCells(s, rows, cols), mines);
  }

  /** The corrected test holds exactly when the covered squares are the mined squares. */
  lemma WinsCorrectedMeaning(mines: set<Cell>, target: int, s: Board, rows: int, cols: int)
    requires IsBoard(s, rows, cols) && |mines| == target
    ensures WinsCorrected(mines, target, s, rows, cols) <==> CoveredCells(s, rows, cols) == mines
  {
    CountsPinDown(CoveredCells(s, rows, cols), mines);
  }

  /**
   * A 2 x 2 field with its one mine at (0, 0), after (1, 1) has been
   * uncovered (it shows 1) and (0, 1) and (1, 0) have each been cycled twice
   * to QUESTION: isGameOver declares a win though two safe squares are still
   * covered, while the corrected test does not.
   */
  lemma QuestionMarksWin()
    ensures Wins({(0, 0)}, 1, [[Covered, Question], [Question, 1]], 2, 2)
    ensures !WinsCorrected({(0, 0)}, 1, [[Covered, Question], [Question, 1]], 2, 2)
    ensures !IsUncoveredStatus([[Covered, Question], [Question, 1]][0][1])
  {
    var s: Board := [[Covered, Question], [Question, 1]];
    var mines: set<Cell> := {(0, 0)};
    forall p
      ensures p in HiddenCells(s, 2, 2) <==> p in mines
    {
      InHidden(s, 2, 2, p);
    }
    SameElements(HiddenCells(s, 2, 2), mines);
    WinsMeaning(mines, 1, s, 2, 2);
    assert (0, 1) in CoveredCells(s, 2, 2);
    WinsCorrectedMeaning(mines, 1, s, 2, 2);
  }

  /** The two totals isGameOver computes decide Wins. */
  lemma WinsByCounts(mines: set<Cell>, target: int, s: Board, rows: int, cols: int, countMine: int, countNoMine: int)
    requires IsBoard(s, rows, cols)
    requires countMine == |HiddenCells(s, rows, cols) * mines| && countNoMine == |HiddenCells(s, rows, cols) - mines|
    ensures Wins(mines, target, s, rows, cols) <==> countMine == target && countNoMine == 0
  {
  }

  /** The board after the loss reveal. */
  ghost function RevealLoss(s: Board, mines: set<Cell>, rows: int, cols: int): (t: Board)
    requires IsBoard(s, rows, cols)
    ensures IsBoard(t, rows, cols)
    ensures forall r, c {:trigger t[r][c]} | InBounds(rows, cols, r, c) :: t[r][c] == LossReveal(s[r][c], (r, c) in mines)
  {
    seq(rows, r requires 0 <= r < rows =>
      seq(cols, c requires 0 <= c < cols => LossReveal(s[r][c], (r, c) in mines)))
  }

  /** The board after the win reveal. */
  ghost function RevealWin(s: Board, mines: set<Cell>, rows: int, cols: int): (t: Board)
    requires IsBoard(s, rows, cols)
    ensures IsBoard(t, rows, cols)
    ensures forall r, c {:trigger t[r][c]} | InBounds(rows, cols, r, c) :: t[r][c] == WinReveal(s[r][c], (r, c) in mines)
  {
    seq(rows, r requires 0 <= r < rows =>
      seq(cols, c requires 0 <= c < cols => WinReveal(s[r][c], (r, c) in mines)))
  }

  /** The board after cycleGuess(row, col). */
  ghost function Cycled(s: Board, rows: int, cols: int, row: int, col: int): (t: Board)
    requires IsBoard(s, rows, cols) && InBounds(rows, cols, row, col)
    ensures IsBoard(t, rows, cols)
  {
    s[row := s[row][col := NextGuess(s[row][col])]]
  }

  /** A board with every square COVERED has no guesses and hides every square. */
  lemma AllCoveredCells(s: Board, rows: int, cols: int)
    requires IsBoard(s, rows, cols) && AllAre(s, rows, cols, Covered)
    ensures GuessCells(s, rows, cols) == {}
    ensures HiddenCells(s, rows, cols) == AllCells(rows, cols)
  {
    assert GuessCells(s, rows, cols) == {};
  }

  /** Three calls of cycleGuess on the same square restore the board; an uncovered square is never changed. */
  lemma CycleThrice(s: Board, rows: int, cols: int, row: int, col: int)
    requires IsBoard(s, rows, cols) && InBounds(rows, cols, row, col)
    ensures Cycled(Cycled(Cycled(s, rows, cols, row, col), rows, cols, row, col), rows, cols, row, col) == s
    ensures IsUncoveredStatus(s[row][col]) ==> Cycled(s, rows, cols, row, col) == s
  {
    NextGuessThrice(s[row][col]);
    var t1 := Cycled(s, rows, cols, row, col);
    var t2 := Cycled(t1, rows, cols, row, col);
    var t3 := Cycled(t2, rows, cols, row, col);
    forall r, c | InBounds(rows, cols, r, c)
      ensures t3[r][c] == s[r][c]
    {
      if r == row && c == col {
        assert t3[r][c] == NextGuess(NextGuess(NextGuess(s[r][c])));
      }
    }
    SameBoard(t3, s, rows, cols);
    if IsUncoveredStatus(s[row][col]) {
      SameBoard(t1, s, rows, cols);
    }
  }

  /**
   * cycleGuess changes the number of guesses by one in the direction of the
   * cycle: up when a COVERED square becomes a guess, down when a guess becomes
   * a QUESTION, and not at all otherwise.
   */
  lemma CycleGuessCount(s: Board, rows: int, cols: int, row: int, col: int)
    requires IsBoard(s, rows, cols) && InBounds(rows, cols, row, col)
    ensures |GuessCells(Cycled(s, rows, cols, row, col), rows, cols)|
         == |GuessCells(s, rows, cols)| + (if s[row][col] == Covered then 1 else if s[row][col] == MineGuess then -1 else 0)
  {
    var t := Cycled(s, rows, cols, row, col);
    var before := GuessCells(s, rows, cols);
    var after := GuessCells(t, rows, cols);
    var p := (row, col);
    if s[row][col] == Covered {
      assert after == before + {p};
    } else if s[row][col] == MineGuess {
      assert after == before - {p};
    } else {
      assert after == before;
    }
  }

  /**
   * The loss reveal changes only covered squares, and applying it again changes
   * nothing: a second isGameOver after a loss leaves the board as it is.
   */
  lemma LossRevealSettles(s: Board, mines: set<Cell>, rows: int, cols: int)
    requires IsBoard(s, rows, cols)
    ensures RevealLoss(RevealLoss(s, mines, rows, cols), mines, rows, cols) == RevealLoss(s, mines, rows, cols)
    ensures forall r, c {:trigger s[r][c]} | InBounds(rows, cols, r, c) && IsUncoveredStatus(s[r][c]) ::
              RevealLoss(s, mines, rows, cols)[r][c] == s[r][c]
  {
    var t := RevealLoss(s, mines, rows, cols);
    forall r, c | InBounds(rows, cols, r, c)
      ensures RevealLoss(t, mines, rows, cols)[r][c] == t[r][c]
    {
      RevealsSettle(s[r][c], (r, c) in mines);
    }
    SameBoard(RevealLoss(t, mines, rows, cols), t, rows, cols);
  }

  /** Membership in GuessCells, one square at a time. */
  lemma InGuesses(s: Board, rows: int, cols: int, p: Cell)
    requires IsBoard(s, rows, cols)
    ensures p in GuessCells(s, rows, cols) <==> InBounds(rows, cols, p.0, p.1) && s[p.0][p.1] == MineGuess
  {
  }

  lemma GuessCellsBounded(s: Board, rows: int, cols: int)
    requires IsBoard(s, rows, cols)
    ensures forall p {:trigger p in GuessCells(s, rows, cols)} | p in GuessCells(s, rows, cols) :: 0 <= p.0 < rows && 0 <= p.1 < cols
  {
  }

  lemma HiddenCellsBounded(s: Board, rows: int, cols: int)
    requires IsBoard(s, rows, cols)
    ensures forall p {:trigger p in HiddenCells(s, rows, cols)} | p in HiddenCells(s, rows, cols) :: 0 <= p.0 < rows && 0 <= p.1 < cols
  {
  }

  /** Membership in HiddenCells, one square at a time. */
  lemma InHidden(s: Board, rows: int, cols: int, p: Cell)
    requires IsBoard(s, rows, cols)
    ensures p in HiddenCells(s, rows, cols)
        <==> InBounds(rows, cols, p.0, p.1) && (s[p.0][p.1] == Covered || s[p.0][p.1] == MineGuess)
  {
  }

  /** The squares before (i, j) in row-major order that are marked MINE_GUESS, counted one by one. */
  ghost function GuessBefore(s: Board, rows: int, cols: int, i: int, j: int): nat
    requires IsBoard(s, rows, cols) && 0 <= i <= rows && 0 <= j <= cols && (i == rows ==> j == 0)
    decreases i, j
  {
    if j > 0 then GuessBefore(s, rows, cols, i, j - 1) + (if s[i][j - 1] == MineGuess then 1 else 0)
    else if i > 0 then GuessBefore(s, rows, cols, i - 1, cols)
    else 0
  }

  /** The running count agrees with the number of guesses before (i, j). */
  lemma {:induction false} GuessBeforeCounts(s: Board, rows: int, cols: int, i: int, j: int)
    requires IsBoard(s, rows, cols) && 0 <= i <= rows && 0 <= j <= cols && (i == rows ==> j == 0)
    ensures GuessBefore(s, rows, cols, i, j) == |Before(GuessCells(s, rows, cols), i, j)|
    decreases i, j
  {
    var guesses := GuessCells(s, rows, cols);
    if j > 0 {
      GuessBeforeCounts(s, rows, cols, i, j - 1);
      InGuesses(s, rows, cols, (i, j - 1));
      CountStep(guesses, i, j - 1, s[i][j - 1] == MineGuess);
    } else if i > 0 {
      GuessBeforeCounts(s, rows, cols, i - 1, cols);
      GuessCellsBounded(s, rows, cols);
      CountRowEnd(guesses, cols, i - 1);
    } else {
      GuessCellsBounded(s, rows, cols);
      CountBounds(guesses, rows, cols);
    }
  }

  /** Counted over the whole board, the running count is the number of guesses. */
  lemma GuessTotal(s: Board, rows: int, cols: int)
    requires IsBoard(s, rows, cols)
    ensures GuessBefore(s, rows, cols, rows, 0) == |GuessCells(s, rows, cols)|
  {
    GuessBeforeCounts(s, rows, cols, rows, 0);
    GuessCellsBounded(s, rows, cols);
    CountBounds(GuessCells(s, rows, cols), rows, cols);
  }

  /** (i, j) is COVERED or MINE_GUESS, and holds a mine exactly when `mined`. */
  ghost predicate HiddenAs(s: Board, mines: set<Cell>, mined: bool, i: int, j: int)
    requires 0 <= i < |s| && 0 <= j < |s[i]|
  {
    (s[i][j] == Covered || s[i][j] == MineGuess) && ((i, j) in mines <==> mined)
  }

  /** The squares before (i, j) in row-major order that are HiddenAs(.., mined, ..), counted one by one. */
  ghost function HiddenBefore(s: Board, rows: int, cols: int, mines: set<Cell>, mined: bool, i: int, j: int): nat
    requires IsBoard(s, rows, cols) && 0 <= i <= rows && 0 <= j <= cols && (i == rows ==> j == 0)
    decreases i, j
  {
    if j > 0 then HiddenBefore(s, rows, cols, mines, mined, i, j - 1) + (if HiddenAs(s, mines, mined, i, j - 1) then 1 else 0)
    else if i > 0 then HiddenBefore(s, rows, cols, mines, mined, i - 1, cols)
    else 0
  }

  /** The running count agrees with the size of the set of hidden mined (or hidden safe) squares before (i, j). */
  lemma {:induction false} HiddenBeforeCounts(s: Board, rows: int, cols: int, mines: set<Cell>, i: int, j: int)
    requires IsBoard(s, rows, cols) && 0 <= i <= rows && 0 <= j <= cols && (i == rows ==> j == 0)
    ensures HiddenBefore(s, rows, cols, mines, true, i, j) == |Before(HiddenCells(s, rows, cols) * mines, i, j)|
    ensures HiddenBefore(s, rows, cols, mines, false, i, j) == |Before(HiddenCells(s, rows, cols) - mines, i, j)|
    decreases i, j
  {
    var hidden := HiddenCells(s, rows, cols);
    if j > 0 {
      HiddenBeforeCounts(s, rows, cols, mines, i, j - 1);
      InHidden(s, rows, cols, (i, j - 1));
      CountStep(hidden * mines, i, j - 1, HiddenAs(s, mines, true, i, j - 1));
      CountStep(hidden - mines, i, j - 1, HiddenAs(s, mines, false, i, j - 1));
    } else if i > 0 {
      HiddenBeforeCounts(s, rows, cols, mines, i - 1, cols);
      HiddenCellsBounded(s, rows, cols);
      CountRowEnd(hidden * mines, cols, i - 1);
      CountRowEnd(hidden - mines, cols, i - 1);
    } else {
      HiddenCellsBounded(s, rows, cols);
      CountBounds(hidden * mines, rows, cols);
      CountBounds(hidden - mines, rows, cols);
    }
  }

  /** Counted over the whole board, the running counts are isGameOver's two totals. */
  lemma HiddenTotals(s: Board, rows: int, cols: int, mines: set<Cell>)
    requires IsBoard(s, rows, cols)
    ensures HiddenBefore(s, rows, cols, mines, true, rows, 0) == |HiddenCells(s, rows, cols) * mines|
    ensures HiddenBefore(s, rows, cols, mines, false, rows, 0) == |HiddenCells(s, rows, cols) - mines|
  {
    HiddenBeforeCounts(s, rows, cols, mines, rows, 0);
    HiddenCellsBounded(s, rows, cols);
    CountBounds(HiddenCells(s, rows, cols) * mines, rows, cols);
    CountBounds(HiddenCells(s, rows, cols) - mines, rows, cols);
  }

  /** After the win reveal the hidden squares are exactly the mines. */
  lemma WinRevealHides(s: Board, mines: set<Cell>, rows: int, cols: int)
    requires IsBoard(s, rows, cols) && mines <= AllCells(rows, cols)
    requires HiddenCells(s, rows, cols) - mines == {}
    ensures HiddenCells(RevealWin(s, mines, rows, cols), rows, cols) == mines
  {
    var t := RevealWin(s, mines, rows, cols);
    var h := HiddenCells(t, rows, cols);
    forall p
      ensures p in h <==> p in mines
    {
      InHidden(t, rows, cols, p);
      InHidden(s, rows, cols, p);
      if p in mines {
        assert p in AllCells(rows, cols);
        assert t[p.0][p.1] == MineGuess;
      } else if InBounds(rows, cols, p.0, p.1) {
        assert t[p.0][p.1] == s[p.0][p.1];
        assert p !in HiddenCells(s, rows, cols) - mines;
      }
    }
    SameElements(h, mines);
  }

  /**
   * When the field holds no more mines than its target, a won board is still
   * won after the win reveal, and revealing again changes nothing: a second
   * isGameOver after a win returns true and leaves the board as it is.
   */
  lemma WinRevealSettles(s: Board, mines: set<Cell>, target: int, rows: int, cols: int)
    requires IsBoard(s, rows, cols) && mines <= AllCells(rows, cols) && |mines| <= target
    requires Wins(mines, target, s, rows, cols)
    ensures Wins(mines, target, RevealWin(s, mines, rows, cols), rows, cols)
    ensures RevealWin(RevealWin(s, mines, rows, cols), mines, rows, cols) == RevealWin(s, mines, rows, cols)
  {
    var t := RevealWin(s, mines, rows, cols);
    SubsetSize(HiddenCells(s, rows, cols) * mines, mines);
    WinRevealHides(s, mines, rows, cols);
    assert HiddenCells(t, rows, cols) * mines == mines;
    forall r, c | InBounds(rows, cols, r, c)
      ensures RevealWin(t, mines, rows, cols)[r][c] == t[r][c]
    {
      RevealsSettle(s[r][c], (r, c) in mines);
    }
    SameBoard(RevealWin(t, mines, rows, cols), t, rows, cols);
  }

  /**
   * A board on which a mined square has been uncovered (EXPLODED_MINE) is never
   * won while the field holds no more mines than its target.
   */
  lemma ExplodedNeverWins(s: Board, mines: set<Cell>, target: int, rows: int, cols: int, row: int, col: int)
    requires IsBoard(s, rows, cols) && InBounds(rows, cols, row, col) && |mines| <= target
    requires (row, col) in mines && IsUncoveredStatus(s[row][col])
    ensures !Wins(mines, target, s, rows, cols)
  {
    var h := HiddenCells(s, rows, cols) * mines;
    assert h <= mines - {(row, col)};
    SubsetSize(h, mines - {(row, col)});
  }
}
