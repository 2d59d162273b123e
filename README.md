# Minesweeper model layer in Dafny

This project models the two classes that hold the state of a Minesweeper game,
`MineField` and `VisibleField`, and proves what their operations do.

- **`MineField`** is a rectangular grid recording which squares hold a mine,
  together with the number of mines the field is meant to hold. It is built
  either from explicit data or empty, with a target count. It can be cleared,
  and re-populated around a square the first click must not hit. It answers
  range and mine queries, and counts the mines around a square.
- **`VisibleField`** holds the status grid the player sees, a sticky "failed"
  flag, and a shared reference to the `MineField`. It implements:
  - the guess cycle COVERED -> MINE_GUESS -> QUESTION -> COVERED;
  - `uncover`, which either explodes a mine or runs the recursive flood fill;
  - the mines-left counter;
  - `isGameOver`, which detects a loss or a win and rewrites the grid for the
    end-of-game reveal.

Both classes change arrays in place, so both are Dafny classes over `array2`
fields. Fields the source never reassigns after construction (the mine grid, the
target count, the status grid, the shared field) are `const`. Only the array
contents and the failed flag change. Every method is proved against ghost
abstractions of that state:

- `MineField.MineCells()` is the set of mined squares.
- `VisibleField.Grid()` is the board as a `seq<seq<int>>`.
- `VisibleField.Mines()` is the mine set of the shared field.

Modules follow the structure of the game:

| file | module | contents |
|---|---|---|
| `grids.dfy` | `Grids` | cells, the eight neighbour offsets in the order both source loops use them, row-major prefixes, cardinality facts |
| `squares.dfy` | `Squares` | the integer status encoding (-1, -2, -3 covered; 0..8 counts; 9, 10, 11 end-of-game), the guess cycle and the per-square reveals |
| `boards.dfy` | `Boards` | boards as values: the squares the game counts, the win test, the whole-board reveals, `cycleGuess` on a board |
| `mine_field.dfy` | `MineFields` | the class `MineField` and the facts about its mine set |
| `flood_fill.dfy` | `FloodFill` | what one call of `uncoverHelper` does to the board, as a relation proved to compose along the recursion |
| `visible_field.dfy` | `VisibleFields` | the class `VisibleField` |

Where a source method's body holds a loop that the proof needs in a small
context, the loop is its own method, with the method it belongs to calling it:

- `CopyCounting`: the loop of the data constructor.
- `UncoverNeighbours`: the neighbour loop of `uncoverHelper`.
- `CountHidden`: the counting loops of `isGameOver`.
- `PlaceMine`: the single assignment that places a drawn mine.

The statements are those of the source, in the source's order.

The flood fill is stated by the predicate `Filled(mines, s, t, rows, cols, root, trace, parent)`,
which relates the board `s` before a call of `uncoverHelper(root)` to the board
`t` after it:

- **Only opens:** a square either keeps its status, or was COVERED or
  QUESTION, holds no mine, and now shows its number of adjacent mines.
- **Closed:** every square opened as a 0 has no COVERED or QUESTION neighbour
  left on the grid.
- **Traced:** the ghost output `trace` lists exactly the squares that changed.
- **Connected:** `trace` starts at the root, and each later entry neighbours an
  earlier entry (its `parent`) that shows 0.
- **Root:** something is opened exactly when the root is in range, COVERED or
  QUESTION, and mine-free.

The recursion terminates because every call that opens a square shrinks the set
of squares still COVERED or QUESTION (`Pending`).

## Model

| member | source | states |
|---|---|---|
| Squares.UncoveredIsNonNegative | VisibleField.java:25-36 | on the status values, a square is uncovered exactly when its status is non-negative |
| Squares.NextGuess | VisibleField.java:147-158 | one step of the guess cycle keeps a status a status, and keeps a covered square covered and an uncovered one uncovered |
| Squares.NextGuessThrice | VisibleField.java:139-158 | three steps of the guess cycle return every status to itself; an uncovered status is never changed |
| Squares.LossReveal | VisibleField.java:284-295 | the loss reveal of one square yields a valid status |
| Squares.WinReveal | VisibleField.java:304-307 | the win reveal of one square yields a valid status |
| Squares.RevealsSettle | VisibleField.java:281-310 | each reveal applied twice equals it applied once; the loss reveal changes only covered squares, and turns them into uncovered states |
| Boards.AllCoveredCells | VisibleField.java:49-72 | on an all-COVERED board there are no guesses, and every square is among those isGameOver counts |
| Boards.CycleThrice | VisibleField.java:139-158 | three cycleGuess calls on one square restore the board; on an uncovered square cycleGuess changes nothing |
| Boards.CycleGuessCount | VisibleField.java:139-158 | cycleGuess raises the guess count by one on a COVERED square, lowers it by one on a MINE_GUESS, and leaves it unchanged otherwise |
| Boards.GuessBeforeCounts | VisibleField.java:126-133 | the running count of MINE_GUESS squares in row-major order equals the number of guesses before that point |
| Boards.GuessTotal | VisibleField.java:126-134 | the running count over the whole board is the number of MINE_GUESS squares |
| Boards.HiddenBeforeCounts | VisibleField.java:200-212 | the two running counts of isGameOver equal the numbers of mined (and of unmined) COVERED/MINE_GUESS squares before that point |
| Boards.HiddenTotals | VisibleField.java:198-212 | over the whole board, the running counts are the numbers of mined and unmined COVERED/MINE_GUESS squares |
| Boards.WinsByCounts | VisibleField.java:213 | the test on the two totals is exactly the win predicate `Wins` |
| Boards.WinsMeaning | VisibleField.java:198-216 | when the field holds its target number of mines, the win test holds exactly when the COVERED/MINE_GUESS squares are the mined squares |
| Boards.WinsCorrectedMeaning | VisibleField.java:168 | the corrected win test, counting all three covered states, holds exactly when the covered squares are the mined squares, so every safe square is opened |
| Boards.QuestionMarksWin | VisibleField.java:203-213 | on a concrete board with two safe squares still marked QUESTION, the source's win test holds and the corrected one does not |
| Boards.LossRevealSettles | VisibleField.java:281-298 | revealing a lost board twice equals revealing it once, so a second isGameOver after a loss leaves the board alone; uncovered squares keep their status |
| Boards.WinRevealHides | VisibleField.java:301-310 | after the win reveal of a board with no unmined square hidden, the COVERED/MINE_GUESS squares are exactly the mines |
| Boards.WinRevealSettles | VisibleField.java:193-219 | a won board stays won after the win reveal, and a second reveal changes nothing: a second isGameOver returns true and leaves the board alone |
| Boards.ExplodedNeverWins | VisibleField.java:176-179 | a board showing a mined square uncovered never passes the win test (with no more mines than the target, which `MineField.Stocked` guarantees for every field the constructors and the mine-placing operations produce) |
| Grids.StepsAreNeighbours | VisibleField.java:261-262 | each offset reaches a king-move neighbour not reached by an earlier offset |
| Grids.AllStepsAreNeighbours | MineField.java:124-127 | the eight offsets reach exactly the eight king-move neighbours, never the square itself |
| Grids.MinedSteps | MineField.java:127-133 | the mines among the first n + 1 offsets are those among the first n, plus one when the n-th neighbour holds a mine |
| MineFields.TrueBeforeCounts | MineField.java:34-41 | the running count of true entries in row-major order equals the number of true cells before that point |
| MineFields.TrueTotal | MineField.java:34-41 | over the whole array, the running count is the number of true cells |
| MineFields.CopyCounting | MineField.java:30-41 | returns a fresh array of the same shape with the same entries, and the number of true entries |
| MineFields.MineField.FromData | MineField.java:22-42 | the mines are exactly the true entries of the data, the shape is the data's, and numMines() is the number of mines (so `Stocked`: no more mines than numMines()) |
| MineFields.MineField.Sized | MineField.java:45-59 | a numRows x numCols field with no mine whose numMines() is the given count, hence `Stocked` |
| MineFields.MineField.NumRows | MineField.java:159-161 | the row count is positive |
| MineFields.MineField.NumCols | MineField.java:168-170 | the column count is positive |
| MineFields.MineField.NumMines | MineField.java:195-197 | the target count is non-negative |
| MineFields.MineField.InRange | MineField.java:144-152 | true exactly when 0 <= row < numRows() and 0 <= col < numCols() |
| MineFields.MineField.HasMine | MineField.java:180-186 | true exactly when (row, col) is among the mined squares |
| MineFields.MineField.ResetEmpty | MineField.java:91-106 | afterwards no square holds a mine, hence `Stocked`; shape and target are constants and do not change |
| MineFields.AdjacentMinesBounds | MineField.java:109-117 | the adjacent-mine count is at most 8, ignores a mine on the square itself, is 0 exactly when no neighbour holds a mine, and is 0 on an empty field |
| MineFields.MineField.NumAdjacentMines | MineField.java:118-135 | returns the number of mined king-move neighbours on the grid, between 0 and 8 |
| MineFields.MineField.PlaceMine | MineField.java:83-86 | an accepted draw sets one square that held no mine, adding exactly that square to the mines |
| MineFields.CrossFreeSize | MineField.java:83 | the squares outside the row and the column of (row, col) number (rows - 1) * (cols - 1) |
| MineFields.OtherCellsSize | MineField.java:63-64 | the squares other than (row, col) number rows * cols - 1 |
| MineFields.RoomForMines | MineField.java:52 | with at least two rows and two columns, every count the sized constructor admits fits outside the avoided row and column |
| MineFields.CrossStarvesOneRow | MineField.java:52 | a one-row field with four columns admits a mine, yet no square escapes the avoided row |
| MineFields.MineField.PopulateMineField | MineField.java:69-88 | clears the field and places exactly numMines() mines, none in row `row` and none in column `col`, hence `Stocked` |
| MineFields.MineField.PopulateAvoidingCell | MineField.java:62-69 | places exactly numMines() mines, none at (row, col), for every target below the number of squares, hence `Stocked` |
| FloodFill.OpenedOnce | VisibleField.java:257-267 | a square a fill changes was COVERED or QUESTION and mine-free, and is no longer; any other square stays as it was |
| FloodFill.OnlyOpensCompose | VisibleField.java:271-275 | two fills in a row only open squares openable at the start, and a square opened by the first is untouched by the second |
| FloodFill.SettledKept | VisibleField.java:270-275 | a square with no openable neighbour keeps that property through later fills |
| FloodFill.PendingKept | VisibleField.java:246-277 | a fill never adds to the squares still COVERED or QUESTION |
| FloodFill.PendingOpened | VisibleField.java:267 | opening the root removes exactly the root from those squares |
| FloodFill.PendingShrinks | VisibleField.java:257-275 | once the root is opened, strictly fewer squares are openable than on entry; this is the fact behind the termination measure that the invariant of `UncoverNeighbours`' loop carries (that proof itself uses `PendingOpened` and `PendingKept` step by step) |
| FloodFill.FillNone | VisibleField.java:248-259 | a root out of range, guessed, mined or uncovered: the call changes nothing and opens nothing |
| FloodFill.FillSingle | VisibleField.java:267-270 | a root with a mined neighbour is opened with its count and the fill stops there |
| FloodFill.FillStart | VisibleField.java:267-270 | a root with no mined neighbour, once it shows 0, starts the neighbour loop |
| FloodFill.NeighbourFilled | VisibleField.java:271-275 | after the fill of one neighbour of a 0 square, that neighbour is off the grid or no longer openable |
| FloodFill.ClosedStep | VisibleField.java:271-275 | closure of the opened 0 squares survives one more neighbour's fill |
| FloodFill.ReachedStep | VisibleField.java:271-275 | the trace with shifted parents stays connected to the root after one more neighbour's fill |
| FloodFill.FillStep | VisibleField.java:271-275 | one iteration of the neighbour loop extends the progress invariant from n offsets to n + 1 |
| FloodFill.FillEnd | VisibleField.java:270-276 | after all eight neighbours the root is closed too, and the whole call satisfies `Filled` |
| FloodFill.FillOpensRoot | VisibleField.java:246-267 | a fill that does work shows the root's adjacent-mine count; one that does none leaves the board as it was |
| FloodFill.FillTwice | VisibleField.java:257-259 | uncovering the same square a second time changes nothing |
| VisibleFields.VisibleField.constructor | VisibleField.java:55-72 | every square COVERED, no guesses, not failed, the given field shared |
| VisibleFields.VisibleField.ResetGameDisplay | VisibleField.java:79-93 | every square COVERED, no guesses, not failed, and the shared field emptied (so it is `Stocked`) |
| VisibleFields.VisibleField.GetStatus | VisibleField.java:113-116 | returns the status of the square on the board, always a valid status |
| VisibleFields.VisibleField.IsUncovered | VisibleField.java:230-242 | false exactly for COVERED, MINE_GUESS and QUESTION, that is, exactly for negative statuses |
| VisibleFields.VisibleField.NumMinesLeft | VisibleField.java:125-136 | the target count minus the number of MINE_GUESS squares (possibly negative); the board is not changed |
| VisibleFields.VisibleField.CycleGuess | VisibleField.java:147-158 | the board becomes `Cycled` of the old board: that square advances in the guess cycle, and no other square changes |
| VisibleFields.VisibleField.Uncover | VisibleField.java:175-185 | on a mine: returns false, sets failed, and only that square changes, to EXPLODED_MINE; otherwise: returns true and the board is `Filled` from (row, col) |
| VisibleFields.VisibleField.UncoverHelper | VisibleField.java:246-277 | the board after the call is `Filled` from (row, col) with respect to the board before it |
| VisibleFields.VisibleField.UncoverNeighbours | VisibleField.java:270-276 | after the loop over the eight neighbours, the board is `Filled` from the root with respect to the board on entry to uncoverHelper |
| VisibleFields.VisibleField.IsGameOver | VisibleField.java:193-219 | failed: returns true and applies the loss reveal; otherwise returns the win test on the board, applies the win reveal on a win and changes nothing otherwise |
| VisibleFields.VisibleField.CountHidden | VisibleField.java:198-212 | returns the numbers of mined and of unmined COVERED/MINE_GUESS squares |
| VisibleFields.VisibleField.LoseCondition | VisibleField.java:281-298 | the board becomes the loss reveal of the old board: unguessed mines become MINE, wrong guesses INCORRECT_GUESS, nothing else changes |
| VisibleFields.VisibleField.WinCondition | VisibleField.java:301-310 | the board becomes the win reveal of the old board: every mined square becomes MINE_GUESS, nothing else changes |

Immediately after the constructor or `ResetGameDisplay`, the number of guesses is
0. So `NumMinesLeft` then returns `numMines()`, by its own postcondition.

## Left out

- `java.util.Random` in `populateMineField` (MineField.java:72, 80-82) is left
  out. Each accepted draw is a nondeterministic choice (`:|`) among the squares
  the acceptance test admits. Rejected draws change nothing, so they are not
  modelled. The distribution of mines is not modelled.
- PopulateMineField: requires at least `numMines()` squares outside the avoided
  row and column. The source's loop never ends without them (see Findings).
  RoomForMines shows that every field of at least 2 x 2 that the sized
  constructor admits meets this.
- The cached fields `rowsNum`, `colsNum`, `mineNum` and `mineGuessNum` of
  `VisibleField` (VisibleField.java:42-45) are not kept. The model reads the
  shape and the target from the shared field, and neither ever changes.
  `numMinesLeft` recounts every time, so the write to `mineGuessNum` at
  VisibleField.java:126 is not modelled.
- `getMineField` (VisibleField.java:100-102) is the public `const` field
  `mineField`.
- Aliasing of the shared `MineField` is limited to `reads`/`modifies` frames.
  Only `ResetGameDisplay` may change its mines. Changes made by other code
  between calls are the caller's business.
- Java `assert` statements and `PRE:` comments are `requires` clauses.
  `uncover` documents its in-range precondition (VisibleField.java:173) but
  does not assert it; it is a `requires` like the others.
- The sized constructor's `PRE:` comment bounds the mine count by "1/3 of" the
  squares (MineField.java:52); `Sized` reads this as an exact third,
  `3 * numMines < numRows * numCols`, not as Java integer division.
- The source's `boolean[][]` and `int[][]` are modelled as `array2`, which is
  always rectangular. A jagged `mineData` cannot be expressed and is left out:
  the data constructor takes the width from `mineData[0].length`
  (MineField.java:31), so its copy loop would throw on a shorter row and drop
  the extra entries of a longer one.
- Java `int` arithmetic: every count is at most the number of squares, so
  overflow is not modelled.
- The view and controller that call these classes are not part of this model.
- The ghost outputs `trace` and `parent` of `Uncover`, `UncoverHelper` and
  `UncoverNeighbours` exist only to state that the opened region is connected
  to the square clicked. They are not part of the source.

## Findings

| source | as written | input that shows it | evidently intended | confidence | as-written member | corrected member |
|---|---|---|---|---|---|---|
| MineField.java:83 | a draw is accepted only when it shares neither the row nor the column of (row, col) | a 1 x 6 field built with the sized constructor and 1 mine (allowed by the precondition at MineField.java:52 whether "1/3 of" the 6 squares is read exactly or with integer division, 6/3 = 2; `CrossStarvesOneRow` covers every single-row field of at least 4 columns, the exact reading), then populateMineField(0, 0): no square is ever accepted and the loop never ends | no mine at (row, col) itself, as the comment at MineField.java:63-64 says | not executed; high | MineFields.CrossStarvesOneRow | MineFields.MineField.PopulateAvoidingCell |
| VisibleField.java:203-213 | the win test counts only COVERED and MINE_GUESS squares, so a QUESTION square counts in neither total | a 2 x 2 field whose one mine is at (0, 0): uncover(1, 1) shows 1; cycleGuess twice on (0, 1) and twice on (1, 0) turns both to QUESTION; isGameOver() then returns true with two safe squares unopened | a win only once all the squares without a mine are opened, as the comment at VisibleField.java:168 says | not executed; medium | Boards.QuestionMarksWin | Boards.WinsCorrectedMeaning |

The first row: `PopulateMineField` models the acceptance test as written, with
the requirement it needs to finish. `PopulateAvoidingCell` is the corrected
placement, and it finishes for every count the sized constructor admits.

The second row: `IsGameOver` keeps the source's test (`Wins`). `WinsMeaning`
shows that this test treats a safe square marked QUESTION as if it were opened.
It also shows that the test never declares a win while a mined square is marked
QUESTION. `WinsCorrected` is the same count taken over all three covered
states.
