/**
 * The mine field: a rectangular grid recording which squares hold a mine,
 * together with the number of mines the field is meant to hold. The two
 * differ on purpose between the sized constructor (or resetEmpty) and the
 * next populateMineField.
 */
module MineFields {
  import opened Grids

  /** The cells of `a` holding true. */
  ghost function TrueCells(a: array2<bool>): (s: set<Cell>)
    reads a
    ensures forall p {:trigger p in s} | p in s :: InBounds(a.Length0, a.Length1, p.0, p.1)
  {
    set r, c | 0 <= r < a.Length0 && 0 <= c < a.Length1 && a[r, c] :: (r, c)
  }

  /** The array seen as rows of values. */
  ghost function BoolSnapshot(a: array2<bool>): (m: seq<seq<bool>>)
    reads a
    ensures |m| == a.Length0 && forall r | 0 <= r < |m| :: |m[r]| == a.Length1
    ensures forall r, c {:trigger m[r][c]} | InBounds(a.Length0, a.Length1, r, c) :: m[r][c] == a[r, c]
  {
    seq(a.Length0, r requires 0 <= r < a.Length0 reads a =>
      seq(a.Length1, c requires 0 <= c < a.Length1 reads a => a[r, c]))
  }

  /** The true entries of m before (i, j) in row-major order, counted one by one. */
  ghost function TrueBefore(m: seq<seq<bool>>, cols: int, i: int, j: int): nat
    requires 0 <= i <= |m| && 0 <= j <= cols && (i == |m| ==> j == 0)
    requires forall r | 0 <= r < |m| :: |m[r]| == cols
    decreases i, j
  {
    if j > 0 then TrueBefore(m, cols, i, j - 1) + (if m[i][j - 1] then 1 else 0)
    else if i > 0 then TrueBefore(m, cols, i - 1, cols)
    else 0
  }

  /** The running count agrees with the number of true cells before (i, j). */
  lemma {:induction false} TrueBeforeCounts(a: array2<bool>, i: int, j: int)
    requires 0 <= i <= a.Length0 && 0 <= j <= a.Length1 && (i == a.Length0 ==> j == 0)
    ensures TrueBefore(BoolSnapshot(a), a.Length1, i, j) == |Before(TrueCells(a), i, j)|
    decreases i, j
  {
    var m := BoolSnapshot(a);
    if j > 0 {
      TrueBeforeCounts(a, i, j - 1);
      assert m[i][j - 1] == a[i, j - 1];
      CountStep(TrueCells(a), i, j - 1, a[i, j - 1]);
    } else if i > 0 {
      TrueBeforeCounts(a, i - 1, a.Length1);
      CountRowEnd(TrueCells(a), a.Length1, i - 1);
    } else {
      CountBounds(TrueCells(a), a.Length0, a.Length1);
    }
  }

  /** Counted over the whole array, the running count is the number of true cells. */
  lemma TrueTotal(a: array2<bool>)
    ensures TrueBefore(BoolSnapshot(a), a.Length1, a.Length0, 0) == |TrueCells(a)|
  {
    TrueBeforeCounts(a, a.Length0, 0);
    CountBounds(TrueCells(a), a.Length0, a.Length1);
  }

  lemma SameTrueCells(a: array2<bool>, b: array2<bool>)
    requires a.Length0 == b.Length0 && a.Length1 == b.Length1
    requires forall r, c {:trigger a[r, c]} | InBounds(a.Length0, a.Length1, r, c) :: a[r, c] == b[r, c]
    ensures TrueCells(a) == TrueCells(b)
  {
  }

  /** The number of mines among the king-move neighbours of (r, c). */
  ghost function AdjacentMines(mines: set<Cell>, r: int, c: int): nat {
    |mines * NeighbourCells(r, c)|
  }

  /**
   * The count of adjacent mines never exceeds 8, never includes (r, c) itself,
   * is 0 exactly when no neighbour holds a mine, and so is 0 everywhere on an
   * empty field.
   */
  lemma AdjacentMinesBounds(mines: set<Cell>, r: int, c: int)
    ensures AdjacentMines(mines, r, c) <= 8
    ensures AdjacentMines(mines - {(r, c)}, r, c) == AdjacentMines(mines, r, c)
    ensures AdjacentMines(mines, r, c) == 0 <==> forall p {:trigger p in mines} | p in NeighbourCells(r, c) :: p !in mines
    ensures AdjacentMines({}, r, c) == 0
  {
    AllStepsAreNeighbours(r, c);
    SubsetSize(mines * NeighbourCells(r, c), NeighbourCells(r, c));
    assert (mines - {(r, c)}) * NeighbourCells(r, c) == mines * NeighbourCells(r, c);
    if AdjacentMines(mines, r, c) == 0 {
      assert mines * NeighbourCells(r, c) == {};
    }
  }

  /**
   * The cells populateMineField(row, col) accepts: those sharing neither the
   * row nor the column of (row, col).
   */
  ghost function CrossFree(rows: int, cols: int, row: int, col: int): set<Cell> {
    set r, c | 0 <= r < rows && 0 <= c < cols && r != row && c != col :: (r, c)
  }

  /** The cells other than (row, col): the placement the documentation of populateMineField describes. */
  ghost function OtherCells(rows: int, cols: int, row: int, col: int): set<Cell> {
    AllCells(rows, cols) - {(row, col)}
  }

  /** Removing one row and one column leaves (rows - 1) * (cols - 1) acceptable cells. */
  lemma CrossFreeSize(rows: int, cols: int, row: int, col: int)
    requires InBounds(rows, cols, row, col)
    ensures |CrossFree(rows, cols, row, col)| == (rows - 1) * (cols - 1)
  {
    RangeSize(rows);
    RangeSize(cols);
    assert |Range(rows) - {row}| == rows - 1;
    assert |Range(cols) - {col}| == cols - 1;
    assert CrossFree(rows, cols, row, col) == Product(Range(rows) - {row}, Range(cols) - {col});
    ProductSize(Range(rows) - {row}, Range(cols) - {col});
  }

  lemma OtherCellsSize(rows: int, cols: int, row: int, col: int)
    requires InBounds(rows, cols, row, col)
    ensures |OtherCells(rows, cols, row, col)| == rows * cols - 1
  {
    AllCellsSize(rows, cols);
  }

  /**
   * On a field of at least two rows and two columns, every mine count the
   * sized constructor admits (fewer than a third of the cells) fits in the
   * cells populateMineField may use.
   */
  lemma {:induction false} RoomForMines(rows: int, cols: int, numMines: int)
    requires rows >= 2 && cols >= 2 && 0 <= numMines && 3 * numMines < rows * cols
    ensures numMines <= (rows - 1) * (cols - 1)
  {
    var a, b := rows - 2, cols - 2;
    assert rows * cols == 4 + 2 * a + 2 * b + a * b;
    assert (rows - 1) * (cols - 1) == 1 + a + b + a * b;
    assert 0 <= a * b;
  }

  /**
   * With a single row, no cell escapes the row of the avoided cell, yet the
   * sized constructor admits a mine as soon as there are four columns (six if
   * its bound is read with integer division): every draw of populateMineField
   * is then rejected.
   */
  lemma CrossStarvesOneRow(cols: int, col: int)
    requires cols >= 4 && 0 <= col < cols
    ensures 3 * 1 < 1 * cols
    ensures CrossFree(1, cols, 0, col) == {}
  {
  }

  /**
   * The loop of the data constructor: a fresh copy of mineData, counting the
   * mines while copying.
   */
  method CopyCounting(mineData: array2<bool>) returns (a: array2<bool>, count: int)
    ensures fresh(a)
    ensures a.Length0 == mineData.Length0 && a.Length1 == mineData.Length1
    ensures forall r, c {:trigger a[r, c]} | InBounds(a.Length0, a.Length1, r, c) :: a[r, c] == mineData[r, c]
    ensures count == |TrueCells(mineData)|
  {
    var arrayRow := mineData.Length0;
    var arrayCol := mineData.Length1;
    a := new bool[arrayRow, arrayCol];
    count := 0;
    ghost var m := BoolSnapshot(mineData);
    TrueTotal(mineData);
    for i := 0 to arrayRow
      invariant forall r, c {:trigger a[r, c]} | 0 <= r < i && 0 <= c < arrayCol :: a[r, c] == mineData[r, c]
      invariant count == TrueBefore(m, arrayCol, i, 0)
    {
      for j := 0 to arrayCol
        invariant forall r, c {:trigger a[r, c]} | 0 <= r <= i && 0 <= c < arrayCol && (r < i || c < j) :: a[r, c] == mineData[r, c]
        invariant count == TrueBefore(m, arrayCol, i, j)
      {
        a[i, j] := mineData[i, j];
        if a[i, j] {
          count := count + 1;
        }
      }
    }
  }

  class MineField {
    /** mines[r, c] holds iff there is a mine at (r, c). */
    const mines: array2<bool>
    /** The number of mines this field is meant to hold (numMines()). */
    const numOfMines: int

    ghost predicate Valid() {
      mines.Length0 > 0 && mines.Length1 > 0 && numOfMines >= 0
    }

    /** The abstract state: the cells holding a mine. */
    ghost function MineCells(): (s: set<Cell>)
      reads mines
      ensures forall p {:trigger p in s} | p in s :: InBounds(mines.Length0, mines.Length1, p.0, p.1)
    {
      TrueCells(mines)
    }

    /**
     * The field holds no more mines than numMines(). Every constructor,
     * ResetEmpty and both populating operations end with it (a single PlaceMine
     * step need not); the lemmas about the win test once the game is settled or
     * a mine has exploded need it.
     */
    ghost predicate Stocked()
      reads mines
    {
      |MineCells()| <= numOfMines
    }

    /** A field with the shape and the mines of mineData; numMines() is the number of mines in it. */
    constructor FromData(mineData: array2<bool>)
      requires mineData.Length0 > 0 && mineData.Length1 > 0
      ensures Valid() && fresh(mines)
      ensures mines.Length0 == mineData.Length0 && mines.Length1 == mineData.Length1
      ensures forall r, c {:trigger mines[r, c]} | InBounds(mines.Length0, mines.Length1, r, c) :: mines[r, c] == mineData[r, c]
      ensures MineCells() == TrueCells(mineData)
      ensures numOfMines == |MineCells()|
      ensures Stocked()
    {
      var a, count := CopyCounting(mineData);
      SameTrueCells(a, mineData);
      mines := a;
      numOfMines := count;
    }

    /** An empty field of the given shape, meant to receive numMines mines when populated. */
    constructor Sized(numRows: int, numCols: int, numMines: int)
      requires numRows > 0 && numCols > 0
      requires 0 <= numMines && 3 * numMines < numRows * numCols
      ensures Valid() && fresh(mines)
      ensures mines.Length0 == numRows && mines.Length1 == numCols
      ensures MineCells() == {}
      ensures numOfMines == numMines
      ensures Stocked()
    {
      numOfMines := numMines;
      mines := new bool[numRows, numCols]((r, c) => false);
    }

    function NumRows(): (n: int)
      requires Valid()
      ensures n > 0
    {
      mines.Length0
    }

    function NumCols(): (n: int)
      requires Valid()
      ensures n > 0
    {
      mines.Length1
    }

    /** The target mine count; it need not match |MineCells()| before the field is populated. */
    function NumMines(): (n: int)
      requires Valid()
      ensures n >= 0
    {
      numOfMines
    }

    predicate InRange(row: int, col: int)
      requires Valid()
      ensures InRange(row, col) <==> InBounds(NumRows(), NumCols(), row, col)
    {
      if row < 0 || row >= mines.Length0 then false
      else if col < 0 || col >= mines.Length1 then false
      else true
    }

    predicate HasMine(row: int, col: int)
      requires Valid() && InRange(row, col)
      reads mines
      ensures HasMine(row, col) <==> (row, col) in MineCells()
    {
      mines[row, col]
    }

    /** Clears every mine; the shape and the target mine count stay as they are. */
    method ResetEmpty()
      requires Valid()
      modifies mines
      ensures MineCells() == {}
      ensures Stocked()
    {
      var mineRow := mines.Length0;
      var mineCol := mines.Length1;
      for i := 0 to mineRow
        invariant forall r, c {:trigger mines[r, c]} | 0 <= r < i && 0 <= c < mineCol :: !mines[r, c]
      {
        for j := 0 to mineCol
          invariant forall r, c {:trigger mines[r, c]} | 0 <= r < i && 0 <= c < mineCol :: !mines[r, c]
          invariant forall c | 0 <= c < j :: !mines[i, c]
        {
          mines[i, j] := false;
        }
      }
      assert MineCells() == {};
    }

    /** The number of mines among the in-range king-move neighbours of (row, col). */
    method NumAdjacentMines(row: int, col: int) returns (count: int)
      requires Valid() && InRange(row, col)
      ensures count == AdjacentMines(MineCells(), row, col)
      ensures 0 <= count <= 8
    {
      ghost var cells := MineCells();
      count := 0;
      var length := |RowOffsets|;
      for i := 0 to length
        invariant count == |cells * Stepped(row, col, i)|
        invariant count <= i
      {
        var curPositionX := row + RowOffsets[i];
        var curPositionY := col + ColOffsets[i];
        MinedSteps(cells, row, col, i);
        if InRange(curPositionX, curPositionY) && mines[curPositionX, curPositionY] {
          count := count + 1;
        }
      }
      AllStepsAreNeighbours(row, col);
    }

    /** The assignment that places one drawn mine: the mine cells gain exactly (row, col). */
    method PlaceMine(row: int, col: int)
      requires Valid() && InRange(row, col) && !HasMine(row, col)
      modifies mines
      ensures (row, col) !in old(MineCells())
      ensures MineCells() == old(MineCells()) + {(row, col)}
      ensures |MineCells()| == |old(MineCells())| + 1
    {
      mines[row, col] := true;
    }

    /**
     * Clears the field and places exactly NumMines() mines, none in row `row`
     * and none in column `col`. Each iteration stands for one accepted random
     * draw; rejected draws leave the field unchanged.
     */
    method PopulateMineField(row: int, col: int)
      requires Valid() && InRange(row, col)
      requires numOfMines <= (NumRows() - 1) * (NumCols() - 1)
      modifies mines
      ensures |MineCells()| == numOfMines
      ensures MineCells() <= CrossFree(NumRows(), NumCols(), row, col)
      ensures Stocked()
    {
      ResetEmpty();
      var totalRows := mines.Length0;
      var totalColumn := mines.Length1;
      ghost var eligible := CrossFree(totalRows, totalColumn, row, col);
      CrossFreeSize(totalRows, totalColumn, row, col);
      var loopCount := 0;
      while loopCount < numOfMines
        invariant 0 <= loopCount <= numOfMines
        invariant |MineCells()| == loopCount
        invariant MineCells() <= eligible
        decreases numOfMines - loopCount
      {
        ghost var placed := MineCells();
        SubsetMissesOne(placed, eligible);
        ghost var p :| p in eligible && p !in placed;
        assert 0 <= p.0 < totalRows && 0 <= p.1 < totalColumn && p.0 != row && p.1 != col && !mines[p.0, p.1];
        var chooseRow, chooseCol :| 0 <= chooseRow < totalRows && 0 <= chooseCol < totalColumn
          && chooseRow != row && chooseCol != col && !mines[chooseRow, chooseCol];
        assert (chooseRow, chooseCol) in eligible;
        loopCount := loopCount + 1;
        PlaceMine(chooseRow, chooseCol);
      }
    }

    /**
     * populateMineField as its documentation describes it: exactly NumMines()
     * mines, none at (row, col). Unlike PopulateMineField it has room for every
     * mine count below the number of cells, so it always finishes on fields
     * built by the sized constructor.
     */
    method PopulateAvoidingCell(row: int, col: int)
      requires Valid() && InRange(row, col)
      requires numOfMines < NumRows() * NumCols()
      modifies mines
      ensures |MineCells()| == numOfMines
      ensures MineCells() <= OtherCells(NumRows(), NumCols(), row, col)
      ensures Stocked()
    {
      ResetEmpty();
      var totalRows := mines.Length0;
      var totalColumn := mines.Length1;
      ghost var eligible := OtherCells(totalRows, totalColumn, row, col);
      OtherCellsSize(totalRows, totalColumn, row, col);
      var loopCount := 0;
      while loopCount < numOfMines
        invariant 0 <= loopCount <= numOfMines
        invariant |MineCells()| == loopCount
        invariant MineCells() <= eligible
        decreases numOfMines - loopCount
      {
        ghost var placed := MineCells();
        SubsetMissesOne(placed, eligible);
        ghost var p :| p in eligible && p !in placed;
        assert 0 <= p.0 < totalRows && 0 <= p.1 < totalColumn && (p.0 != row || p.1 != col) && !mines[p.0, p.1];
        var chooseRow, chooseCol :| 0 <= chooseRow < totalRows && 0 <= chooseCol < totalColumn
          && (chooseRow != row || chooseCol != col) && !mines[chooseRow, chooseCol];
        assert (chooseRow, chooseCol) in AllCells(totalRows, totalColumn);
        assert (chooseRow, chooseCol) in eligible;
        loopCount := loopCount + 1;
        PlaceMine(chooseRow, chooseCol);
      }
    }
  }
}
