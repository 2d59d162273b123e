/**
 * What one call of uncoverHelper(root) does to the visible board, stated as a
 * relation between the board before (s) and after (t):
 *  - only squares that were openable (COVERED or QUESTION), in range and
 *    mine-free change, and each then shows its number of adjacent mines;
 *  - every opened square that shows 0 has no openable neighbour left
 *    (the region is closed);
 *  - the opened squares are listed by a trace that starts at the root, each
 *    later square hanging off an earlier opened square that shows 0 and
 *    neighbours it (the region is connected to the root);
 *  - something is opened exactly when the root itself is openable.
 * The lemmas below compose this relation along the eight recursive calls.
 */
module FloodFill {
  import opened Grids
  import opened Squares
  import opened Boards
  import opened MineFields

  /** The covered states the fill opens; a MINE_GUESS square is never opened. */
  predicate Openable(v: int) {
    v == Covered || v == Question
  }

  /** The squares a fill could still open: the termination measure of uncoverHelper. */
  ghost function Pending(s: Board, rows: int, cols: int): set<Cell>
    requires IsBoard(s, rows, cols)
  {
    set r, c | 0 <= r < rows && 0 <= c < cols && Openable(s[r][c]) :: (r, c)
  }

  /** uncoverHelper(p) does work on board s: p is in range, openable and holds no mine. */
  ghost predicate CanOpen(mines: set<Cell>, s: Board, rows: int, cols: int, p: Cell)
    requires IsBoard(s, rows, cols)
  {
    InBounds(rows, cols, p.0, p.1) && Openable(s[p.0][p.1]) && p !in mines
  }

  /** t is s with square p set to v. */
  ghost predicate UpdatedAt(s: Board, t: Board, rows: int, cols: int, p: Cell, v: int)
    requires IsBoard(s, rows, cols) && IsBoard(t, rows, cols) && InBounds(rows, cols, p.0, p.1)
  {
    t[p.0][p.1] == v && forall r, c {:trigger t[r][c]} | InBounds(rows, cols, r, c) && (r, c) != p :: t[r][c] == s[r][c]
  }

  /** From s to t, a square keeps its status or was openable and mine-free and now shows its count. */
  ghost predicate OnlyOpens(mines: set<Cell>, s: Board, t: Board, rows: int, cols: int)
    requires IsBoard(s, rows, cols) && IsBoard(t, rows, cols)
  {
    forall r, c {:trigger t[r][c]} | InBounds(rows, cols, r, c) ::
      t[r][c] == s[r][c] || (Openable(s[r][c]) && (r, c) !in mines && t[r][c] == AdjacentMines(mines, r, c))
  }

  /** No in-range neighbour of (r, c) is openable on t. */
  ghost predicate Settled(t: Board, rows: int, cols: int, r: int, c: int)
    requires IsBoard(t, rows, cols)
  {
    forall p {:trigger p in NeighbourCells(r, c)} | p in NeighbourCells(r, c) && InBounds(rows, cols, p.0, p.1) :: !Openable(t[p.0][p.1])
  }

  /** Every square outside `skip` opened from s to t that shows 0 is settled on t. */
  ghost predicate ClosedExcept(s: Board, t: Board, rows: int, cols: int, skip: set<Cell>)
    requires IsBoard(s, rows, cols) && IsBoard(t, rows, cols)
  {
    forall r, c {:trigger Settled(t, rows, cols, r, c)} | InBounds(rows, cols, r, c) && t[r][c] != s[r][c] && t[r][c] == 0 && (r, c) !in skip ::
      Settled(t, rows, cols, r, c)
  }

  /** The trace lists exactly the squares that differ between s and t. */
  ghost predicate Traced(s: Board, t: Board, rows: int, cols: int, trace: seq<Cell>)
    requires IsBoard(s, rows, cols) && IsBoard(t, rows, cols)
  {
    && (forall k | 0 <= k < |trace| :: InBounds(rows, cols, trace[k].0, trace[k].1))
    && (forall r, c {:trigger t[r][c]} {:trigger (r, c) in trace} | InBounds(rows, cols, r, c) :: t[r][c] != s[r][c] <==> (r, c) in trace)
  }

  /** `child` neighbours `par`, an in-range square that shows 0 on t. */
  ghost predicate HangsOff(t: Board, rows: int, cols: int, child: Cell, par: Cell)
    requires IsBoard(t, rows, cols)
  {
    InBounds(rows, cols, par.0, par.1) && t[par.0][par.1] == 0 && child in NeighbourCells(par.0, par.1)
  }

  /**
   * The trace starts at the root, and every later entry hangs off an earlier
   * entry, its parent.
   */
  ghost predicate Reached(t: Board, rows: int, cols: int, root: Cell, trace: seq<Cell>, parent: seq<int>)
    requires IsBoard(t, rows, cols)
  {
    && |parent| == |trace|
    && (|trace| > 0 ==> trace[0] == root)
    && forall k | 0 < k < |trace| :: 0 <= parent[k] < k && HangsOff(t, rows, cols, trace[k], trace[parent[k]])
  }

  /** The effect of uncoverHelper(root) on board s, giving board t. */
  ghost predicate Filled(mines: set<Cell>, s: Board, t: Board, rows: int, cols: int,
                         root: Cell, trace: seq<Cell>, parent: seq<int>)
    requires IsBoard(s, rows, cols) && IsBoard(t, rows, cols)
  {
    && OnlyOpens(mines, s, t, rows, cols)
    && ClosedExcept(s, t, rows, cols, {})
    && Traced(s, t, rows, cols, trace)
    && Reached(t, rows, cols, root, trace, parent)
    && (|trace| > 0 <==> CanOpen(mines, s, rows, cols, root))
  }

  /** Step k of the loop over the offsets has left that neighbour of root unopenable (or it is off the grid). */
  ghost predicate StepSettled(t: Board, rows: int, cols: int, root: Cell, k: int)
    requires IsBoard(t, rows, cols) && 0 <= k < 8
  {
    var q := Step(root.0, root.1, k);
    InBounds(rows, cols, q.0, q.1) ==> !Openable(t[q.0][q.1])
  }

  /**
   * The state of uncoverHelper(root) on entry board s0 once root has been
   * opened as a 0 and the first n neighbours have been filled, reaching board s.
   */
  ghost predicate FillingFrom(mines: set<Cell>, s0: Board, s: Board, rows: int, cols: int,
                              root: Cell, n: int, trace: seq<Cell>, parent: seq<int>)
    requires IsBoard(s0, rows, cols) && IsBoard(s, rows, cols) && 0 <= n <= 8
  {
    && CanOpen(mines, s0, rows, cols, root)
    && s[root.0][root.1] == 0
    && AdjacentMines(mines, root.0, root.1) == 0
    && OnlyOpens(mines, s0, s, rows, cols)
    && ClosedExcept(s0, s, rows, cols, {root})
    && (forall k | 0 <= k < n :: StepSettled(s, rows, cols, root, k))
    && Traced(s0, s, rows, cols, trace)
    && Reached(s, rows, cols, root, trace, parent)
    && |trace| > 0
  }

  /** The parents of a trace appended after `offset` entries whose entry 0 is the root: its first square hangs off the root. */
  function Shifted(parent: seq<int>, offset: int): (q: seq<int>)
    ensures |q| == |parent|
    ensures |q| > 0 ==> q[0] == 0
    ensures forall j | 0 < j < |q| :: q[j] == parent[j] + offset
  {
    seq(|parent|, j requires 0 <= j < |parent| => if j == 0 then 0 else parent[j] + offset)
  }

  /** A square that changes under OnlyOpens was openable and ends unopenable; an unopenable square never changes. */
  lemma OpenedOnce(mines: set<Cell>, s: Board, t: Board, rows: int, cols: int, r: int, c: int)
    requires IsBoard(s, rows, cols) && IsBoard(t, rows, cols) && InBounds(rows, cols, r, c)
    requires OnlyOpens(mines, s, t, rows, cols)
    ensures t[r][c] != s[r][c] ==> Openable(s[r][c]) && !Openable(t[r][c]) && (r, c) !in mines
    ensures !Openable(s[r][c]) ==> t[r][c] == s[r][c]
  {
  }

  /** OnlyOpens composes: two fills in a row only open squares that were openable at the start. */
  lemma OnlyOpensCompose(mines: set<Cell>, s0: Board, s: Board, s1: Board, rows: int, cols: int)
    requires IsBoard(s0, rows, cols) && IsBoard(s, rows, cols) && IsBoard(s1, rows, cols)
    requires OnlyOpens(mines, s0, s, rows, cols) && OnlyOpens(mines, s, s1, rows, cols)
    ensures OnlyOpens(mines, s0, s1, rows, cols)
    ensures forall r, c {:trigger s1[r][c]} | InBounds(rows, cols, r, c) ::
              s1[r][c] != s0[r][c] <==> s[r][c] != s0[r][c] || s1[r][c] != s[r][c]
    ensures forall r, c {:trigger s1[r][c]} | InBounds(rows, cols, r, c) && s[r][c] != s0[r][c] :: s1[r][c] == s[r][c]
  {
    forall r, c | InBounds(rows, cols, r, c)
      ensures s[r][c] != s0[r][c] ==> s1[r][c] == s[r][c]
    {
      OpenedOnce(mines, s0, s, rows, cols, r, c);
      OpenedOnce(mines, s, s1, rows, cols, r, c);
    }
  }

  /** A settled square stays settled under a later fill. */
  lemma SettledKept(mines: set<Cell>, s: Board, s1: Board, rows: int, cols: int, r: int, c: int)
    requires IsBoard(s, rows, cols) && IsBoard(s1, rows, cols)
    requires OnlyOpens(mines, s, s1, rows, cols) && Settled(s, rows, cols, r, c)
    ensures Settled(s1, rows, cols, r, c)
  {
    forall p | p in NeighbourCells(r, c) && InBounds(rows, cols, p.0, p.1)
      ensures !Openable(s1[p.0][p.1])
    {
      OpenedOnce(mines, s, s1, rows, cols, p.0, p.1);
    }
  }

  /** Membership in Pending, one square at a time. */
  lemma InPending(s: Board, rows: int, cols: int, p: Cell)
    requires IsBoard(s, rows, cols)
    ensures p in Pending(s, rows, cols) <==> InBounds(rows, cols, p.0, p.1) && Openable(s[p.0][p.1])
  {
  }

  /** A fill never adds to the squares left to open. */
  lemma PendingKept(mines: set<Cell>, s: Board, t: Board, rows: int, cols: int)
    requires IsBoard(s, rows, cols) && IsBoard(t, rows, cols)
    requires OnlyOpens(mines, s, t, rows, cols)
    ensures Pending(t, rows, cols) <= Pending(s, rows, cols)
  {
    forall p | p in Pending(t, rows, cols)
      ensures p in Pending(s, rows, cols)
    {
      InPending(t, rows, cols, p);
      InPending(s, rows, cols, p);
      OpenedOnce(mines, s, t, rows, cols, p.0, p.1);
    }
  }

  /** Termination of uncoverHelper: once the root is opened, strictly fewer squares are left to open. */
  lemma PendingShrinks(mines: set<Cell>, s0: Board, s: Board, rows: int, cols: int,
                       root: Cell, n: int, trace: seq<Cell>, parent: seq<int>)
    requires IsBoard(s0, rows, cols) && IsBoard(s, rows, cols) && 0 <= n <= 8
    requires FillingFrom(mines, s0, s, rows, cols, root, n, trace, parent)
    ensures Pending(s, rows, cols) < Pending(s0, rows, cols)
  {
    PendingKept(mines, s0, s, rows, cols);
    InPending(s0, rows, cols, root);
    InPending(s, rows, cols, root);
  }

  /** Opening the root takes exactly the root out of the squares left to open. */
  lemma PendingOpened(mines: set<Cell>, s: Board, t: Board, rows: int, cols: int, root: Cell)
    requires IsBoard(s, rows, cols) && IsBoard(t, rows, cols) && CanOpen(mines, s, rows, cols, root)
    requires UpdatedAt(s, t, rows, cols, root, 0)
    ensures Pending(t, rows, cols) + {root} == Pending(s, rows, cols)
    ensures root !in Pending(t, rows, cols)
  {
    forall p | p in Pending(s, rows, cols)
      ensures p in Pending(t, rows, cols) + {root}
    {
      InPending(s, rows, cols, p);
      InPending(t, rows, cols, p);
    }
    forall p | p in Pending(t, rows, cols)
      ensures p in Pending(s, rows, cols) && p != root
    {
      InPending(s, rows, cols, p);
      InPending(t, rows, cols, p);
    }
  }

  /** A root that cannot be opened: nothing changes. */
  lemma FillNone(mines: set<Cell>, s: Board, rows: int, cols: int, root: Cell)
    requires IsBoard(s, rows, cols) && !CanOpen(mines, s, rows, cols, root)
    ensures Filled(mines, s, s, rows, cols, root, [], [])
  {
  }

  /** A root with a mined neighbour: it is opened with its count and the fill stops there. */
  lemma FillSingle(mines: set<Cell>, s: Board, t: Board, rows: int, cols: int, root: Cell)
    requires IsBoard(s, rows, cols) && IsBoard(t, rows, cols) && CanOpen(mines, s, rows, cols, root)
    requires AdjacentMines(mines, root.0, root.1) != 0
    requires UpdatedAt(s, t, rows, cols, root, AdjacentMines(mines, root.0, root.1))
    ensures Filled(mines, s, t, rows, cols, root, [root], [0])
  {
  }

  /** A root with no mined neighbour: once it shows 0, the loop over its neighbours starts. */
  lemma FillStart(mines: set<Cell>, s: Board, t: Board, rows: int, cols: int, root: Cell)
    requires IsBoard(s, rows, cols) && IsBoard(t, rows, cols) && CanOpen(mines, s, rows, cols, root)
    requires AdjacentMines(mines, root.0, root.1) == 0
    requires UpdatedAt(s, t, rows, cols, root, 0)
    ensures FillingFrom(mines, s, t, rows, cols, root, 0, [root], [0])
  {
  }

  /** A root showing 0 has no mined neighbour, so each neighbour on the grid is either opened or unopenable after its fill. */
  lemma NeighbourFilled(mines: set<Cell>, s: Board, s1: Board, rows: int, cols: int,
                        root: Cell, n: int, t: seq<Cell>, p: seq<int>)
    requires IsBoard(s, rows, cols) && IsBoard(s1, rows, cols) && 0 <= n < 8
    requires AdjacentMines(mines, root.0, root.1) == 0
    requires Filled(mines, s, s1, rows, cols, Step(root.0, root.1, n), t, p)
    ensures StepSettled(s1, rows, cols, root, n)
  {
    var q := Step(root.0, root.1, n);
    StepsAreNeighbours(root.0, root.1, n);
    assert mines * NeighbourCells(root.0, root.1) == {};
    assert q !in mines * NeighbourCells(root.0, root.1);
    if InBounds(rows, cols, q.0, q.1) {
      OpenedOnce(mines, s, s1, rows, cols, q.0, q.1);
      if CanOpen(mines, s, rows, cols, q) {
        assert t[0] == q;
        assert s1[q.0][q.1] == AdjacentMines(mines, q.0, q.1);
      }
    }
  }

  /** The closure condition survives one more neighbour's fill. */
  lemma ClosedStep(mines: set<Cell>, s0: Board, s: Board, s1: Board, rows: int, cols: int, root: Cell)
    requires IsBoard(s0, rows, cols) && IsBoard(s, rows, cols) && IsBoard(s1, rows, cols)
    requires OnlyOpens(mines, s0, s, rows, cols) && OnlyOpens(mines, s, s1, rows, cols)
    requires ClosedExcept(s0, s, rows, cols, {root}) && ClosedExcept(s, s1, rows, cols, {})
    ensures ClosedExcept(s0, s1, rows, cols, {root})
  {
    OnlyOpensCompose(mines, s0, s, s1, rows, cols);
    forall r, c | InBounds(rows, cols, r, c) && s1[r][c] != s0[r][c] && s1[r][c] == 0 && (r, c) !in {root}
      ensures Settled(s1, rows, cols, r, c)
    {
      if s[r][c] != s0[r][c] {
        SettledKept(mines, s, s1, rows, cols, r, c);
      }
    }
  }

  /** The trace and its parents survive one more neighbour's fill, appended with shifted parents. */
  lemma ReachedStep(mines: set<Cell>, s0: Board, s: Board, s1: Board, rows: int, cols: int,
                    root: Cell, n: int, trace: seq<Cell>, parent: seq<int>, t: seq<Cell>, p: seq<int>)
    requires IsBoard(s0, rows, cols) && IsBoard(s, rows, cols) && IsBoard(s1, rows, cols) && 0 <= n < 8
    requires FillingFrom(mines, s0, s, rows, cols, root, n, trace, parent)
    requires Filled(mines, s, s1, rows, cols, Step(root.0, root.1, n), t, p)
    ensures Traced(s0, s1, rows, cols, trace + t)
    ensures Reached(s1, rows, cols, root, trace + t, parent + Shifted(p, |trace|))
  {
    OnlyOpensCompose(mines, s0, s, s1, rows, cols);
    StepsAreNeighbours(root.0, root.1, n);
    var tr, pa := trace + t, parent + Shifted(p, |trace|);
    forall k | 0 < k < |tr|
      ensures 0 <= pa[k] < k && HangsOff(s1, rows, cols, tr[k], tr[pa[k]])
    {
      if k < |trace| {
        assert HangsOff(s, rows, cols, trace[k], trace[parent[k]]);
        OpenedOnce(mines, s, s1, rows, cols, trace[parent[k]].0, trace[parent[k]].1);
      } else if k == |trace| {
        OpenedOnce(mines, s, s1, rows, cols, root.0, root.1);
      } else {
        assert HangsOff(s1, rows, cols, t[k - |trace|], t[p[k - |trace|]]);
      }
    }
  }

  /** One iteration of the loop over the offsets: the fill of neighbour n extends the progress to n + 1. */
  lemma FillStep(mines: set<Cell>, s0: Board, s: Board, s1: Board, rows: int, cols: int,
                 root: Cell, n: int, trace: seq<Cell>, parent: seq<int>, t: seq<Cell>, p: seq<int>)
    requires IsBoard(s0, rows, cols) && IsBoard(s, rows, cols) && IsBoard(s1, rows, cols) && 0 <= n < 8
    requires FillingFrom(mines, s0, s, rows, cols, root, n, trace, parent)
    requires Filled(mines, s, s1, rows, cols, Step(root.0, root.1, n), t, p)
    ensures FillingFrom(mines, s0, s1, rows, cols, root, n + 1, trace + t, parent + Shifted(p, |trace|))
  {
    OnlyOpensCompose(mines, s0, s, s1, rows, cols);
    OpenedOnce(mines, s, s1, rows, cols, root.0, root.1);
    ClosedStep(mines, s0, s, s1, rows, cols, root);
    NeighbourFilled(mines, s, s1, rows, cols, root, n, t, p);
    forall k | 0 <= k < n
      ensures StepSettled(s1, rows, cols, root, k)
    {
      var q := Step(root.0, root.1, k);
      assert StepSettled(s, rows, cols, root, k);
      if InBounds(rows, cols, q.0, q.1) {
        OpenedOnce(mines, s, s1, rows, cols, q.0, q.1);
      }
    }
    ReachedStep(mines, s0, s, s1, rows, cols, root, n, trace, parent, t, p);
  }

  /** After all eight neighbours the root is settled too, and the whole fill is done. */
  lemma FillEnd(mines: set<Cell>, s0: Board, s: Board, rows: int, cols: int,
                root: Cell, trace: seq<Cell>, parent: seq<int>)
    requires IsBoard(s0, rows, cols) && IsBoard(s, rows, cols)
    requires FillingFrom(mines, s0, s, rows, cols, root, 8, trace, parent)
    ensures Filled(mines, s0, s, rows, cols, root, trace, parent)
  {
    AllStepsAreNeighbours(root.0, root.1);
    forall q | q in NeighbourCells(root.0, root.1) && InBounds(rows, cols, q.0, q.1)
      ensures !Openable(s[q.0][q.1])
    {
      assert q in Stepped(root.0, root.1, 8);
      var k :| 0 <= k < 8 && q == Step(root.0, root.1, k);
      assert StepSettled(s, rows, cols, root, k);
    }
    assert Settled(s, rows, cols, root.0, root.1);
  }

  /** A fill that does work opens its root with the root's number of adjacent mines. */
  lemma FillOpensRoot(mines: set<Cell>, s: Board, t: Board, rows: int, cols: int,
                      root: Cell, trace: seq<Cell>, parent: seq<int>)
    requires IsBoard(s, rows, cols) && IsBoard(t, rows, cols)
    requires Filled(mines, s, t, rows, cols, root, trace, parent)
    ensures CanOpen(mines, s, rows, cols, root) ==> t[root.0][root.1] == AdjacentMines(mines, root.0, root.1)
    ensures !CanOpen(mines, s, rows, cols, root) ==> t == s
  {
    if CanOpen(mines, s, rows, cols, root) {
      assert trace[0] == root;
    } else {
      SameBoard(t, s, rows, cols);
    }
  }

  /** Uncovering the same square twice: the second fill changes nothing. */
  lemma FillTwice(mines: set<Cell>, s: Board, t: Board, u: Board, rows: int, cols: int, root: Cell,
                  trace: seq<Cell>, parent: seq<int>, trace2: seq<Cell>, parent2: seq<int>)
    requires IsBoard(s, rows, cols) && IsBoard(t, rows, cols) && IsBoard(u, rows, cols)
    requires Filled(mines, s, t, rows, cols, root, trace, parent)
    requires Filled(mines, t, u, rows, cols, root, trace2, parent2)
    ensures u == t
  {
    FillOpensRoot(mines, s, t, rows, cols, root, trace, parent);
    if InBounds(rows, cols, root.0, root.1) {
      OpenedOnce(mines, s, t, rows, cols, root.0, root.1);
    }
    FillOpensRoot(mines, t, u, rows, cols, root, trace2, parent2);
  }
}
