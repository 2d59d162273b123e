/**
 * Shared vocabulary for the two rectangular grids of the game: cells, the
 * king-move neighbourhood, row-major prefixes used by the counting loops, and
 * the cardinality facts that the placement of mines depends on.
 */
module Grids {

  /** A (row, column) location; rows and columns are numbered from 0. */
  type Cell = (int, int)

  /** Row and column offsets of the eight neighbours, in the order both source loops visit them. */
  const RowOffsets: seq<int> := [-1, -1, -1, 0, 0, 1, 1, 1]
  const ColOffsets: seq<int> := [-1, 0, 1, -1, 1, -1, 0, 1]

  predicate InBounds(rows: int, cols: int, r: int, c: int) {
    0 <= r < rows && 0 <= c < cols
  }

  /** The cells of a rows x cols grid. */
  ghost function AllCells(rows: int, cols: int): set<Cell> {
    set r, c | 0 <= r < rows && 0 <= c < cols :: (r, c)
  }

  /** The king-move neighbours of (r, c): cells at most one step away in each direction, not (r, c) itself. */
  ghost function NeighbourCells(r: int, c: int): set<Cell> {
    set a, b | r - 1 <= a <= r + 1 && c - 1 <= b <= c + 1 && (a != r || b != c) :: (a, b)
  }

  /** The neighbour reached with the k-th offset. */
  function Step(r: int, c: int, k: int): Cell
    requires 0 <= k < 8
  {
    (r + RowOffsets[k], c + ColOffsets[k])
  }

  /** The neighbours reached with the first n offsets. */
  ghost function Stepped(r: int, c: int, n: int): set<Cell>
    requires 0 <= n <= 8
  {
    set k | 0 <= k < n :: Step(r, c, k)
  }

  /** The cells of s that come strictly before (i, j) in row-major order. */
  ghost function Before(s: set<Cell>, i: int, j: int): set<Cell> {
    set p | p in s && (p.0 < i || (p.0 == i && p.1 < j))
  }

  /** The rows (or columns) 0 .. n-1. */
  ghost function Range(n: int): (s: set<int>)
    decreases n
  {
    if n <= 0 then {} else Range(n - 1) + {n - 1}
  }

  /** All pairs with first component in a and second in b. */
  ghost function Product(a: set<int>, b: set<int>): set<Cell> {
    set x, y | x in a && y in b :: (x, y)
  }

  /**
   * The eight offsets reach eight distinct cells, and together they reach
   * exactly the king-move neighbourhood.
   */
  lemma StepsAreNeighbours(r: int, c: int, n: int)
    requires 0 <= n < 8
    ensures Step(r, c, n) in NeighbourCells(r, c)
    ensures Step(r, c, n) !in Stepped(r, c, n)
    ensures Stepped(r, c, n + 1) == Stepped(r, c, n) + {Step(r, c, n)}
  {
    assert Stepped(r, c, n + 1) == Stepped(r, c, n) + {Step(r, c, n)};
  }

  lemma {:induction false} AllStepsAreNeighbours(r: int, c: int)
    ensures Stepped(r, c, 8) == NeighbourCells(r, c)
    ensures |NeighbourCells(r, c)| == 8
  {
    var n := 0;
    while n < 8
      invariant 0 <= n <= 8
      invariant Stepped(r, c, n) <= NeighbourCells(r, c)
      invariant |Stepped(r, c, n)| == n
    {
      StepsAreNeighbours(r, c, n);
      n := n + 1;
    }
    forall p | p in NeighbourCells(r, c) ensures p in Stepped(r, c, 8) {
      var k := (p.0 - r + 1) * 3 + (p.1 - c + 1);
      var k' := if k < 4 then k else k - 1;
      assert 0 <= k' < 8 && p == Step(r, c, k');
    }
  }

  /** A proper subset (by size) of b leaves out some element of b. */
  lemma SubsetMissesOne<T>(a: set<T>, b: set<T>)
    requires a <= b && |a| < |b|
    ensures exists x :: x in b && x !in a
  {
    if forall x :: x in b ==> x in a {
      SameElements(a, b);
      assert false;
    }
  }

  lemma SameElements<T>(a: set<T>, b: set<T>)
    ensures (forall x :: x in a <==> x in b) ==> a == b
  {
  }

  /** The mines among the first n + 1 neighbours: those among the first n, and the n-th neighbour if mined. */
  lemma MinedSteps(mines: set<Cell>, r: int, c: int, n: int)
    requires 0 <= n < 8
    ensures |mines * Stepped(r, c, n + 1)| == |mines * Stepped(r, c, n)| + (if Step(r, c, n) in mines then 1 else 0)
  {
    StepsAreNeighbours(r, c, n);
    assert mines * Stepped(r, c, n + 1)
        == mines * Stepped(r, c, n) + (if Step(r, c, n) in mines then {Step(r, c, n)} else {});
  }

  /** Counting the cells of s in row-major order advances by one exactly at the cells of s. */
  lemma BeforeStep(s: set<Cell>, i: int, j: int)
    ensures Before(s, i, j + 1) == Before(s, i, j) + (if (i, j) in s then {(i, j)} else {})
    ensures |Before(s, i, j + 1)| == |Before(s, i, j)| + (if (i, j) in s then 1 else 0)
  {
    assert Before(s, i, j + 1) == Before(s, i, j) + (if (i, j) in s then {(i, j)} else {});
  }

  /** The counting step of a row-major loop, in terms of counts only. */
  lemma CountStep(s: set<Cell>, i: int, j: int, counted: bool)
    requires (i, j) in s <==> counted
    ensures |Before(s, i, j + 1)| == |Before(s, i, j)| + (if counted then 1 else 0)
  {
    BeforeStep(s, i, j);
  }

  /** The count at the end of row i is the count at the start of row i + 1. */
  lemma CountRowEnd(s: set<Cell>, cols: int, i: int)
    requires forall p {:trigger p in s} | p in s :: 0 <= p.1 < cols
    ensures |Before(s, i, cols)| == |Before(s, i + 1, 0)|
  {
    BeforeRowEnd(s, cols, i);
  }

  /** For cells of a grid with `cols` columns, the end of row i is the start of row i + 1. */
  lemma BeforeRowEnd(s: set<Cell>, cols: int, i: int)
    requires forall p {:trigger p in s} | p in s :: 0 <= p.1 < cols
    ensures Before(s, i, cols) == Before(s, i + 1, 0)
  {
  }

  lemma {:induction false} RangeSize(n: int)
    requires 0 <= n
    ensures forall k :: k in Range(n) <==> 0 <= k < n
    ensures |Range(n)| == n
  {
    if n > 0 {
      RangeSize(n - 1);
    }
  }

  /** Membership in a product, one pair at a time. */
  lemma InProduct(a: set<int>, b: set<int>, p: Cell)
    ensures p in Product(a, b) <==> p.0 in a && p.1 in b
  {
    var (x, y) := p;
    if x in a && y in b {
      assert (x, y) in Product(a, b);
    }
  }

  /** A product of finite sets has as many pairs as the product of their sizes. */
  lemma {:induction false} ProductSize(a: set<int>, b: set<int>)
    ensures |Product(a, b)| == |a| * |b|
    decreases |a|
  {
    if |a| == 0 {
      assert Product(a, b) == {};
    } else {
      // The solver does not draw an element from a nonempty set<int> here unaided; ruling out emptiness
      // by a universal statement gives it the set-extensionality instance it needs.
      if forall z :: z !in a {
        assert false;
      }
      var x :| x in a;
      var rest, row := Product(a - {x}, b), Product({x}, b);
      ProductSize(a - {x}, b);
      PairsSize(x, b);
      forall p
        ensures p in Product(a, b) <==> p in rest + row
        ensures p !in rest * row
      {
        InProduct(a, b, p);
        InProduct(a - {x}, b, p);
        InProduct({x}, b, p);
      }
      assert Product(a, b) == rest + row;
      assert rest * row == {};
      assert |a| * |b| == (|a| - 1) * |b| + |b|;
    }
  }

  lemma {:induction false} PairsSize(x: int, b: set<int>)
    ensures |Product({x}, b)| == |b|
    decreases |b|
  {
    if |b| == 0 {
      assert Product({x}, b) == {};
    } else {
      if forall z :: z !in b {
        assert false;
      }
      var y :| y in b;
      PairsSize(x, b - {y});
      forall p
        ensures p in Product({x}, b) <==> p in Product({x}, b - {y}) + {(x, y)}
      {
        InProduct({x}, b, p);
        InProduct({x}, b - {y}, p);
      }
      assert Product({x}, b) == Product({x}, b - {y}) + {(x, y)};
    }
  }

  /** A rows x cols grid has rows * cols cells. */
  lemma AllCellsSize(rows: int, cols: int)
    requires 0 <= rows && 0 <= cols
    ensures |AllCells(rows, cols)| == rows * cols
  {
    RangeSize(rows);
    RangeSize(cols);
    assert AllCells(rows, cols) == Product(Range(rows), Range(cols));
    ProductSize(Range(rows), Range(cols));
  }

  lemma BeforeBounds(s: set<Cell>, rows: int, cols: int)
    requires forall p {:trigger p in s} | p in s :: 0 <= p.0 < rows && 0 <= p.1 < cols
    ensures Before(s, 0, 0) == {}
    ensures Before(s, rows, 0) == s
  {
  }

  /** The counts a row-major loop starts from and ends with. */
  lemma CountBounds(s: set<Cell>, rows: int, cols: int)
    requires forall p {:trigger p in s} | p in s :: 0 <= p.0 < rows && 0 <= p.1 < cols
    ensures |Before(s, 0, 0)| == 0
    ensures |Before(s, rows, 0)| == |s|
  {
    BeforeBounds(s, rows, cols);
  }

  /** A subset is no larger than its superset. */
  lemma {:induction false} SubsetSize<T>(a: set<T>, b: set<T>)
    requires a <= b
    ensures |a| <= |b|
    decreases |b|
  {
    if |b| == 0 {
      assert a == {};
    } else {
      assert b != {};
      var x :| x in b;
      SubsetSize(a - {x}, b - {x});
      assert |a| <= |a - {x}| + 1;
    }
  }

  /** A subset as large as its superset is the whole of it. */
  lemma SubsetSameSize<T>(a: set<T>, b: set<T>)
    requires a <= b && |a| >= |b|
    ensures a == b
  {
    if a != b {
      if forall z :: z in b ==> z in a {
        SameElements(a, b);
        assert false;
      }
      var x :| x in b && x !in a;
      SubsetSize(a, b - {x});
      assert false;
    }
  }
}
