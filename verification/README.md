# Entropy-guided search on a switch board

The program explores a variant of the "Lights Out" puzzle on a rectangular
grid of on/off switches. Toggling the switch at (row, col) inverts every
switch in that row and every switch in that column; the switch at the
crossing ends up inverted once. The program scores a board by the binary
entropy of the fraction of switches that are on. It searches for a
low-entropy board:

- every switch is tried and scored by the board it would produce;
- the candidates are sorted by score;
- one is picked at a rank drawn from a geometric distribution, redrawn
  until it is a valid position;
- the picked move is applied, and this repeats for a fixed number of
  steps;
- the search returns the first board with the lowest score seen below 1.0,
  with the moves that produced it. If no score fell below 1.0, it returns
  the initial board and no moves.

The model has four modules:

- `Switchboard` (`switchboard.dfy`): boards as sequences of rows, and the
  toggle `Flip` with its algebra (involution, commutation, undoing a move
  sequence). It also holds the in-place `FlipSwitch` on `array2<bool>`,
  proved against `Flip`.
- `EntropyMetric` (`entropy.dfy`): the count of switches that are on and an
  integer score ordered like binary entropy. It also holds the 8-bit count
  the program actually computes (see Findings).
- `Candidates` (`candidates.dfy`): scored moves, the stable sort by score
  (sorted, a permutation, stable), and the rejection loop over a stream of
  draws.
- `Search` (`search.dfy`): the row-major enumeration, the selector, and the
  minimization loop. Its loop state is tied to a specification of the whole
  run (`Steps`, `ScoresAlong`, `IsFirstMinBelow`).

The score is `Entropy(k, n) = 2 * min(k, n - k)` for k switches on out of
n. For a fixed n, binary entropy H(k / n) is symmetric in k and n - k and
increases strictly while k <= n / 2, so it orders boards exactly as this
integer does. The search only compares scores of equal-sized boards with
each other, or with the start value 1.0. That start value is the top score
n, reached exactly when half of the switches are on.

## Model

| member | source | states |
|---|---|---|
| Switchboard.Flip | src/main.rs:8-14 | toggling keeps the board rectangular, with the same rows, columns and size |
| Switchboard.FlipInvertsExactlyCross | src/main.rs:10-12 | a cell changes exactly when it lies in the toggled row or column; every other cell is unchanged |
| Switchboard.FlipInvolution | src/main.rs:8-14 | toggling the same switch twice gives back the original board |
| Switchboard.FlipCommutes | src/main.rs:8-14 | two toggles give the same board in either order |
| Switchboard.ApplyMoves | src/main.rs:67-70 | applying a sequence of in-range moves keeps the board's shape and size |
| Switchboard.ApplyMovesAppend | src/main.rs:67-70 | applying ms then ns is applying ms + ns |
| Switchboard.UndoMoves | src/main.rs:8-14 | applying the same moves again in reverse order restores the board |
| Switchboard.SizeOfRectangular | src/main.rs:25 | the number of cells of a rectangular board is rows times columns |
| Switchboard.SizeOfCells | src/main.rs:52 | `board.len()` of a two-dimensional array is the product of its dimensions |
| Switchboard.CloneBoard | src/main.rs:9 | the clone is a fresh array with the same dimensions and cells |
| Switchboard.CellsOfFlip | src/main.rs:10-12 | an array that differs from the board exactly on the cross holds the toggled board |
| Switchboard.FlipSwitch | src/main.rs:8-14 | the row sweep, the column sweep and the cell assignment together invert each cross cell exactly once, the crossing cell included; the result is a new array that equals `Flip` of the input and keeps its dimensions |
| EntropyMetric.TrueCount | src/main.rs:20-23 | the count of switches on is at most the number of cells |
| EntropyMetric.TrueCountExtremes | src/main.rs:20-23 | the count is 0 exactly when all switches are off, and equals the size exactly when all are on |
| EntropyMetric.Entropy | src/main.rs:25-26 | the score lies between 0 and n; it is 0 exactly when no switch or every switch is on, and n exactly when half are on |
| EntropyMetric.EntropyFollowsBalance | src/main.rs:25-26 | for boards of one size, a lower score means a fraction of switches on further from one half, as with binary entropy |
| EntropyMetric.Top | src/main.rs:62 | the start value `1.0` is a score no board of that size exceeds, and boards with half of their switches on reach it |
| EntropyMetric.BoardEntropy | src/main.rs:17-28 | a board's score never exceeds the top value that stands for entropy 1.0 |
| EntropyMetric.SameCountSameEntropy | src/main.rs:17-28 | two boards of the same size with equally many switches on score the same |
| EntropyMetric.ZeroEntropyIffUniform | src/main.rs:25-26 | a board scores 0 exactly when it is uniform |
| EntropyMetric.TopEntropyIffHalf | src/main.rs:25-26 | a board scores the top value exactly when half of its switches are on |
| EntropyMetric.ComplementTrueCount | src/main.rs:20-23 | inverting every switch turns k switches on out of n into n - k |
| EntropyMetric.ComplementSameEntropy | src/main.rs:25-26 | a board and its complement score the same |
| EntropyMetric.NumTrueU8 | src/main.rs:20-23 | the 8-bit count, as accumulated by the program, is always below 256 |
| EntropyMetric.BoardEntropyAsWritten | src/main.rs:17-28 | the score computed from the 8-bit count never exceeds the top value, and equals the true score whenever fewer than 256 switches are on |
| EntropyMetric.U8CountExactWhenSmall | src/main.rs:20-23 | on boards of at most 255 cells, the 8-bit count and the score computed from it are exact |
| EntropyMetric.U8CountWraps | src/main.rs:20-26 | a 1 x 300 board with 257 switches on has an 8-bit count of 1, so the program scores it as a board with one switch on (score 2) although its true score is 86 |
| Candidates.Insert | src/main.rs:44 | inserting into a sorted list keeps it sorted and adds one element |
| Candidates.InsertPermutes | src/main.rs:44 | insertion adds exactly the inserted candidate to the multiset |
| Candidates.SortByEntropy | src/main.rs:44 | the sorted candidates are non-decreasing by score and as many as the input |
| Candidates.SortPermutes | src/main.rs:44 | the sort is a permutation of its input |
| Candidates.SortIsStable | src/main.rs:44 | for every score, the candidates with that score keep their original order |
| Candidates.CountBelowSort | src/main.rs:44 | sorting does not change how many candidates score below any given value |
| Candidates.FirstFit | src/main.rs:51-54 | the rejection loop stops at the first draw below the length; every earlier draw was out of range |
| Candidates.Rank | src/main.rs:51-54 | the rank the loop settles on is below the number of candidates |
| Candidates.SelectByRank | src/main.rs:43-57 | the selected candidate is one of the enumerated candidates |
| Candidates.SelectHasRank | src/main.rs:56 | the selected candidate has rank n: at most n candidates score strictly below it, and more than n score at most its score |
| Candidates.SelectAtRankZero | src/main.rs:56 | at rank 0 the selected candidate scores no higher than any other |
| Search.MoveEntropy | src/main.rs:34-35 | the score of the board a toggle produces is at most the top value and depends only on how many switches that board has on, out of the board's size |
| Search.RowMoves | src/main.rs:33-37 | the inner loop yields one candidate per column from `col` on, with the row and the column in order |
| Search.RowMovesScored | src/main.rs:34-35 | each candidate of a row carries the score of the board its toggle produces |
| Search.MovesFrom | src/main.rs:32-38 | the candidates of the remaining rows are as many as their cells, and each is an in-range switch of those rows |
| Search.MovesFromScored | src/main.rs:34-35 | each candidate of the remaining rows carries the score of the board its toggle produces |
| Search.AllMoveEntropies | src/main.rs:30-40 | the enumeration has one candidate per cell, each an in-range switch |
| Search.CandidatesScored | src/main.rs:34-36 | every enumerated candidate carries the score of the board its toggle produces |
| Search.CandidateCount | src/main.rs:30-40 | the enumeration has exactly rows times columns candidates |
| Search.CandidateAtIndex | src/main.rs:30-40 | entry k is the switch (k / cols, k % cols) with the score of the board its toggle produces |
| Search.EnumerationCoversEveryMove | src/main.rs:32-36 | every in-range switch appears in the enumeration with its score |
| Search.EnumerationIsRowMajor | src/main.rs:32-33 | the enumeration is strictly increasing in row-major order, so no switch appears twice |
| Search.FindAllMoveEntropies | src/main.rs:30-40 | the nested loops that push each toggle's score produce exactly the row-major enumeration |
| Search.Pick | src/main.rs:42-57 | the selected move is in range for the board |
| Search.PickScored | src/main.rs:56-57 | the selected move's score is the score of the board its toggle produces |
| Search.RankZeroIsGreedy | src/main.rs:43-57 | when the drawn rank is 0, no move produces a lower score than the selected one |
| Search.SampleLowEntropyMove | src/main.rs:42-58 | enumerate, sort, redraw until the rank is at most `len - 1`, then index: the result is in range and is the candidate at the drawn rank of the stable sort |
| Search.Steps | src/main.rs:67-70 | after n steps there are exactly n moves, all in range |
| Search.ScoresAlong | src/main.rs:68-71 | one score per move |
| Search.ScoresAlongAt | src/main.rs:68-71 | score j is the score of the board after the first j + 1 moves |
| Search.FirstMinUnique | src/main.rs:73-77 | the kept position is determined by the scores |
| Search.FirstMinStep | src/main.rs:73-77 | after one more score, the kept position moves to the new board exactly on a strict decrease and stays otherwise |
| Search.TracksStep | src/main.rs:62-77 | `min_ent` is the top value while nothing is kept, then the kept score; the update `if ent < min_ent` keeps this, so `min_ent` never increases |
| Search.SearchStep | src/main.rs:67-71 | one step extends the moves by the picked move, the board by its toggle, and the scores by its score |
| Search.KeptScoreIsRecorded | src/main.rs:73-77 | while a board is kept, `min_ent` is the score of the kept board |
| Search.SearchStateStep | src/main.rs:67-77 | the loop body keeps every invariant: the moves are the run so far, the board is the start with those moves applied, the kept moves are a prefix of them, and the kept board is the start with the kept moves applied |
| Search.SearchIteration | src/main.rs:68-77 | one pass of the loop on the arrays keeps the search state: the board array holds the start with the moves so far applied, and the kept array holds the start with the kept moves applied |
| Search.KeptBoardIsLowest | src/main.rs:73-77 | the kept board scores below the top and no board along the run scores lower |
| Search.NothingKeptMeansHalfOn | src/main.rs:62-80 | when nothing is kept, every board along the run had exactly half of its switches on |
| Search.MinimizeBoardEntropy | src/main.rs:60-81 | the returned moves are a prefix of the run, ending at its first lowest score below the top, or empty if there is none; the returned board is the start with those moves applied; with no steps it is the input board and no moves |

## Left out

- The floating-point formula at src/main.rs:25-26 (`f64`, `log2`, division) is replaced by the integer score `Entropy`. It is ordered as binary entropy for a fixed board size. Rounding may make H(k / n) and H((n - k) / n) differ in the last bit; the model treats them as equal, so ties broken by rounding are not modelled.
- NaN at uniform boards is a latent defect of the program and is not modelled. At p = 0 or p = 1, `-p * p.log2()` evaluates 0 times minus infinity, which is NaN.
  - `partial_cmp(...).unwrap()` at src/main.rs:44 then panics as soon as some toggle produces a uniform board.
  - `ent < min_ent` at src/main.rs:73 can never keep a uniform board.
  - The model scores a uniform board 0, the value binary entropy is meant to have there. It therefore follows the evidently intended behaviour, not the code.
- The geometric distribution and `rand::thread_rng()` (src/main.rs:47-53) are replaced by an input: each step receives the stream of values the generator would yield. That the rejection loop ends with probability 1 is not modelled. It becomes the precondition `Terminates`: some value in the stream is below the number of cells.
- `board.len() - 1` underflows on a board with no cells. The `Terminates` precondition excludes that case, since no draw is below 0.
- The 8-bit overflow panic of a debug build is not modelled. `NumTrueU8` and `BoardEntropyAsWritten` model the release build, which wraps (see Findings).
- The search (`MoveEntropy`, `FindAllMoveEntropies`, `SampleLowEntropyMove`, `MinimizeBoardEntropy`) scores boards with the corrected count `TrueCount`, not the wrapped 8-bit count. It matches the program as written only on boards of at most 255 cells, where the two scores agree (`U8CountExactWhenSmall`). On larger boards it models the corrected program.
- The standard library's `sort_by` is modelled as a stable insertion sort, `SortByEntropy`. A stable sort's output is unique, but the model does not prove that uniqueness.
- `main` (src/main.rs:83-100) is not modelled: its hard-coded example board and printing are I/O.
- The `ndarray` operations (`clone`, `row_mut`, `column_mut`, `mapv_inplace`, indexing) are modelled as plain reads and writes of an `array2<bool>`.
- Search.MinimizeBoardEntropy: `min_ent` is not returned by the program, so its value is stated through `IsFirstMinBelow` and `Search.TracksStep` rather than as an output.

## Findings

| source | as written | input that shows it | evidently intended | confidence | as-written member | corrected member |
|---|---|---|---|---|---|---|
| src/main.rs:20-23 | the count of switches on is summed in a `u8`, which wraps modulo 256 in a release build (and panics in a debug build) | a 1 x 300 board with its first 257 switches on: the count wraps to 1, so the program scores it as H(1/300), about 0.03, near the best possible, although its true entropy is H(257/300), about 0.59; in the model the wrapped score is 2 and the true score 86 | count in a type wide enough for `board.len()`, so that the score depends on the true count | high, not executed | EntropyMetric.U8CountWraps | EntropyMetric.BoardEntropy |
