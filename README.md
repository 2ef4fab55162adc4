# Sudoku board generator, modelled in Dafny

The repository's one class, `SudokuGenaretor` (`SudukoBoardGenaretor.java`),
builds an N x N Sudoku board where N is a perfect square. It fills the board
by randomised backtracking (`fillBoard`, which uses `isValidMove`, `getBlock`
and `getRandomPossibleValues`), then clears cells by a single weighted pass
(`makeSpaces`). `createBoard` runs the two steps in sequence.

The model has three modules:

- `SudokuSpec` (`sudoku_spec.dfy`) holds the value-level definitions and the
  lemmas about them:
  - the integer square root and the perfect-square test of the constructor;
  - the candidate list 1..N and a pigeonhole lemma;
  - the hole-punching decisions of `makeSpaces` as functions of the hole
    count and the sequence of `Math.random()` draws (`HolesLeft`, `ClearsAt`,
    `ClearedCount`).
- `Randomness` (`randomness.dfy`) gives `java.util.Random` as an oracle, a
  fixed stream of naturals. `Collections.shuffle` is the library's
  Fisher-Yates pass over that stream.
- `Sudoku` (`sudoku_generator.dfy`) holds the class `SudokuGenerator`:
  - the board is an `array2<int>` that the methods update in place;
  - each Java method is a Dafny method with the same loops, branches and
    early returns;
  - the object invariant `Valid()` says the board is N x N, every cell holds
    0 or a value in 1..N, and no row, column or block holds a non-zero value
    twice.

Randomness comes in from outside the model:

- The shuffles draw from the `Random` object the generator is built with.
- The N*N `Math.random()` values of `makeSpaces` are a `draws: seq<real>`
  parameter, each in [0, 1).
- Nothing is claimed about the distribution of either.

How the code behaves at its edges, as the model states it:

- **Fill order.** `fillBoard(x, y)` runs the first index fastest:
  - (x, y) goes to (x + 1, y);
  - at x == N - 1 it wraps to (0, y + 1).

  `Precedes(i, j, x, y)` is this order. `makeSpaces` runs its second index
  fastest (`i` outer, `j` inner): cell (i, j) is its visit number i*N + j.
- **Hole count.** `makeSpaces(h)`, for 0 <= h <= N*N, clears h or h + 1 cells.
  - It clears a cell when `Math.random() <= holes / totalSquares`.
  - `Math.random()` can return 0.0. A draw of exactly 0.0 after the last hole
    is placed passes `0.0 <= 0.0` and clears one more cell. The counter then
    drops to -1, and nothing more is cleared.
  - With no draw of 0.0, exactly h cells are cleared.
- **Negative hole count.** `makeSpaces` accepts a negative count and clears no
  cell.
- **Failed fill.** `createBoard` runs `makeSpaces` even when `fillBoard(0, 0)`
  fails. A board that was all zero stays all zero. A hole count above N*N is
  still refused.

## Model

| member | source | states |
|---|---|---|
| `SudokuSpec.Isqrt` | SudukoBoardGenaretor.java:29 | the block length computed from N is the integer square root: r*r <= n < (r+1)*(r+1) |
| `SudokuSpec.SquareRoot` | SudukoBoardGenaretor.java:29 | the loop that computes the block length returns the integer square root Isqrt(n) |
| `SudokuSpec.IsqrtOfSquare` | SudukoBoardGenaretor.java:29 | for N = k*k the block length is exactly k |
| `SudokuSpec.PerfectSquareIffRoot` | SudukoBoardGenaretor.java:39-46 | `isPerfectSquare(v)` holds exactly when v is the square of some natural k (negative v are refused) |
| `Sudoku.SudokuGenerator.New` | SudukoBoardGenaretor.java:24-30 | construction fails with NotPerfectSquare exactly when the size is not a perfect square; otherwise a fresh all-zero N x N board satisfying the invariant |
| `Sudoku.SudokuGenerator.constructor` | SudukoBoardGenaretor.java:27-29 | for a perfect-square size: an all-zero size x size board, blockLength*blockLength == size, invariant established |
| `Sudoku.SudokuGenerator.Default` | SudukoBoardGenaretor.java:14-16 | the default generator has size 4, blocks of 2, an all-zero board |
| `Sudoku.SudokuGenerator.GetBlock` | SudukoBoardGenaretor.java:149-156 | for an on-board coordinate the result is the start of its block, (v / blockLength) * blockLength, with start <= v < start + blockLength <= N; off the board it is -1 |
| `Sudoku.SudokuGenerator.BlockWindow` | SudukoBoardGenaretor.java:122-127 | the window scanned from the two block starts is exactly the block of (x, y): a coordinate is in the window if and only if it is on the board and in the block along that axis (so the `< size` clamps never cut the scan short), and the value is absent from the window if and only if it is absent from the block |
| `Sudoku.SudokuGenerator.IsValidMove` | SudukoBoardGenaretor.java:113-129 | the answer is true if and only if the value is absent from row x, from column y and from the block of (x, y) |
| `SudokuSpec.IotaOccurrences` | SudukoBoardGenaretor.java:164-168 | the list built before shuffling holds each of 1..N exactly once and nothing else |
| `Randomness.Shuffle` | SudukoBoardGenaretor.java:169 | whatever the random draws, the shuffled list is a permutation of its input |
| `Sudoku.SudokuGenerator.GetRandomPossibleValues` | SudukoBoardGenaretor.java:163-174 | a fresh array of length N in which each of 1..N occurs exactly once and nothing else occurs |
| `Sudoku.SudokuGenerator.Place` | SudukoBoardGenaretor.java:81-82 | writing a value that passed the validity check keeps the no-duplicates invariant and changes only cell (x, y) |
| `Sudoku.SudokuGenerator.FillBoard` | SudukoBoardGenaretor.java:77-101 | keeps the invariant; never changes a cell before (x, y) in fill order; on true every cell from (x, y) on holds a value in 1..N; on false (x, y) is 0 and every later cell is 0 or what it was |
| `Sudoku.SudokuGenerator.FilledBoardIsSolved` | SudukoBoardGenaretor.java:77-101 | a board the fill completed (no zero, invariant kept) holds every value 1..N in every row, every column and every block |
| `Sudoku.SudokuGenerator.SnapshotSolved` | SudukoBoardGenaretor.java:77-101 | the values of a board the fill completed form a solved grid: every entry in 1..N, no repeat in any row, column or block |
| `Sudoku.SudokuGenerator.MakeSpaces` | SudukoBoardGenaretor.java:182-196 | a count above N*N is refused with TooManyHoles before any cell is touched; otherwise exactly the cells whose draw is at most holes/totalSquares (counters as they stand at that visit) become 0 and all others keep their value; the invariant is kept |
| `Sudoku.SudokuGenerator.ZeroingKeepsValid` | SudukoBoardGenaretor.java:191 | clearing cells to 0 never breaks the no-duplicates invariant |
| `SudokuSpec.HolesLeftBounds` | SudukoBoardGenaretor.java:183-195 | for 0 <= h <= N*N: after k visits the holes counter stays between -1 and the cells still to visit, stays >= 0 when no draw is 0.0, and h minus the counter is the number of cells cleared so far |
| `SudokuSpec.ClearsExactly` | SudukoBoardGenaretor.java:182-196 | for 0 <= h <= N*N, between h and h + 1 cells are cleared, and exactly h when no draw is 0.0 |
| `SudokuSpec.NegativeClearsNothing` | SudukoBoardGenaretor.java:184-192 | a negative hole count is accepted, its counter never moves, and no cell is cleared |
| `Sudoku.SudokuGenerator.HolesMatchClears` | SudukoBoardGenaretor.java:187-195 | when the zero cells are exactly the cleared ones, the number of zero cells equals the number of clearing decisions |
| `Sudoku.SudokuGenerator.CreateBoard` | SudukoBoardGenaretor.java:61-67 | fill from (0, 0), then punch. The result is TooManyHoles exactly when h > N*N. After a successful fill, `solution` (the board as the fill left it) is a complete grid of 1..N with no repeat in any row, column or block. If the count is then accepted, every cell is 0 if it was cleared and its `solution` value otherwise; there are h or h + 1 zero cells (exactly h when no draw is 0.0). If the count is refused, the board is `solution`. After a failed fill every cell is 0 or unchanged |
| `Sudoku.SudokuGenerator.CreateDefaultBoard` | SudukoBoardGenaretor.java:51-53 | `createBoard()` uses 10 holes: every guarantee of CreateBoard with h = 10, including the solved `solution`, the cleared-or-solution cells, 10 or 11 zero cells (exactly 10 when no draw is 0.0), and cells that are 0 or unchanged after a failed fill |

## Left out

- `printBoard` (SudukoBoardGenaretor.java:134-141) and the status messages of `createBoard` are console output. The model returns the fill's outcome as `filled` instead of printing it.
- `Math.sqrt`, `Math.pow` and the `(int)` cast are floating point. The model uses the exact integer square root, `Isqrt`, computed by the loop `SquareRoot`. For 32-bit inputs the two agree on which values are perfect squares; the model does not prove that about doubles.
- `holes / totalSquares` is a double division in the source. The model uses exact rational division, so the two can differ only when a draw falls within rounding distance of the ratio.
- `Math.random()` and the `Random` behind `Collections.shuffle` are oracles: a parameter sequence of draws in [0, 1) and a fixed stream. Uniformity and the variety of the generated boards are statistical properties and are not modelled.
- Java `int` arithmetic is unbounded here. `sudukoSize * sudukoSize` overflows for sizes above 46340, and the model does not reproduce that wrap-around.
- `int[][]` is modelled as a square `array2`, so jagged or aliased rows cannot arise.
- CreateBoard: requires N >= 1. For size 0, which the constructor accepts because 0 is a perfect square, the source writes `board[0][0]` of an empty board and throws `ArrayIndexOutOfBoundsException`; the model does not reproduce that exception.
- FillBoard: does not prove that `false` means no completion exists, nor that a fill from an empty board succeeds. Completeness of the backtracking search is not modelled; only its soundness is.
- GetRandomPossibleValues: states that the result is a permutation of 1..N but not which one the random stream selects.
