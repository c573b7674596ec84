/**
 * The entropy-guided search.
 *
 * Every switch of the board is a candidate move; the candidates are scored
 * by the board each would produce, sorted by score, and one is picked at a
 * rank drawn from a geometric distribution (redrawn until it is in range).
 * The minimization loop applies the picked move a fixed number of times and
 * keeps the first board with the lowest score seen, with the moves that led
 * to it.
 *
 * The random draws are an input: each step receives the stream of values
 * the generator would produce for it.
 */
module Search {
  import opened Switchboard
  import opened EntropyMetric
  import opened Candidates

  /** The score of the board produced by toggling (row, col). */
  function MoveEntropy(b: Board, row: nat, col: nat): (e: nat)
    requires Rectangular(b) && InRange(b, row, col)
    ensures e <= Top(b)
    ensures e == Entropy(TrueCount(Flip(b, row, col)), Size(b))
  {
    BoardEntropy(Flip(b, row, col))
  }

  /** The candidates for the switches (row, col), (row, col + 1), ... to the end of the row. */
  function RowMoves(b: Board, row: nat, col: nat): (es: seq<Candidate>)
    requires Rectangular(b) && row < Rows(b) && col <= Cols(b)
    ensures |es| == Cols(b) - col
    ensures forall k :: 0 <= k < |es| ==> es[k].row == row && es[k].col == col + k
    decreases Cols(b) - col
  {
    if col == Cols(b) then []
    else [Candidate(row, col, MoveEntropy(b, row, col))] + RowMoves(b, row, col + 1)
  }

  lemma {:induction false} RowMovesAt(b: Board, row: nat, col: nat, k: nat)
    requires Rectangular(b) && row < Rows(b) && col <= Cols(b) && k < Cols(b) - col
    ensures RowMoves(b, row, col)[k].ent == MoveEntropy(b, row, col + k)
    decreases k
  {
    if k > 0 {
      assert RowMoves(b, row, col)[k] == RowMoves(b, row, col + 1)[k - 1];
      RowMovesAt(b, row, col + 1, k - 1);
    }
  }

  lemma RowMovesScored(b: Board, row: nat, col: nat)
    requires Rectangular(b) && row < Rows(b) && col <= Cols(b)
    ensures forall k :: 0 <= k < |RowMoves(b, row, col)| ==>
      RowMoves(b, row, col)[k].ent == MoveEntropy(b, row, col + k)
  {
    forall k | 0 <= k < |RowMoves(b, row, col)|
      ensures RowMoves(b, row, col)[k].ent == MoveEntropy(b, row, col + k)
    {
      RowMovesAt(b, row, col, k);
    }
  }

  /** The candidates for every switch of the rows from `row` on, row by row. */
  function MovesFrom(b: Board, row: nat): (es: seq<Candidate>)
    requires Rectangular(b) && row <= Rows(b)
    ensures |es| == Size(b[row..])
    ensures forall k :: 0 <= k < |es| ==> row <= es[k].row && InRange(b, es[k].row, es[k].col)
    decreases Rows(b) - row
  {
    if row == Rows(b) then []
    else
      assert b[row..][1..] == b[row + 1..];
      RowMoves(b, row, 0) + MovesFrom(b, row + 1)
  }

  lemma {:induction false} MovesFromScored(b: Board, row: nat)
    requires Rectangular(b) && row <= Rows(b)
    ensures forall k :: 0 <= k < |MovesFrom(b, row)| ==>
      MovesFrom(b, row)[k].ent == MoveEntropy(b, MovesFrom(b, row)[k].row, MovesFrom(b, row)[k].col)
    decreases Rows(b) - row
  {
    if row < Rows(b) {
      var first, rest := RowMoves(b, row, 0), MovesFrom(b, row + 1);
      RowMovesScored(b, row, 0);
      MovesFromScored(b, row + 1);
      var es := first + rest;
      assert es == MovesFrom(b, row);
      forall k | 0 <= k < |es|
        ensures es[k].ent == MoveEntropy(b, es[k].row, es[k].col)
      {
        if k < |first| {
          assert es[k] == first[k];
        } else {
          assert es[k] == rest[k - |first|];
        }
      }
    }
  }

  /** Every candidate move with the score it produces, in row-major order. */
  function AllMoveEntropies(b: Board): (es: seq<Candidate>)
    requires Rectangular(b)
    ensures |es| == Size(b)
    ensures forall k :: 0 <= k < |es| ==> InRange(b, es[k].row, es[k].col)
  {
    assert b[0..] == b;
    MovesFrom(b, 0)
  }

  /** Each candidate carries the score of the board its toggle produces. */
  lemma CandidatesScored(b: Board)
    requires Rectangular(b)
    ensures forall k :: 0 <= k < |AllMoveEntropies(b)| ==>
      AllMoveEntropies(b)[k].ent == MoveEntropy(b, AllMoveEntropies(b)[k].row, AllMoveEntropies(b)[k].col)
  {
    MovesFromScored(b, 0);
  }

  lemma {:induction false} MulAtLeast(a: int, d: nat)
    requires a >= 1
    ensures a * d >= d
    decreases a
  {
    if a > 1 {
      MulAtLeast(a - 1, d);
      assert a * d == (a - 1) * d + d;
    }
  }

  /** Division with remainder is unique. */
  lemma DivModUnique(k: int, d: nat, q: int, r: int)
    requires 0 <= r < d && k == q * d + r
    ensures k / d == q && k % d == r
  {
    var q', r' := k / d, k % d;
    assert k == q' * d + r';
    if q' > q {
      MulAtLeast(q' - q, d);
      assert false;
    } else if q > q' {
      MulAtLeast(q - q', d);
      assert false;
    }
  }

  lemma DivModShift(k: nat, cols: nat)
    requires 0 < cols <= k
    ensures (k - cols) / cols == k / cols - 1 && (k - cols) % cols == k % cols
  {
    var q, r := k / cols, k % cols;
    assert (q - 1) * cols == q * cols - cols;
    DivModUnique(k - cols, cols, q - 1, r);
  }

  lemma DivModSmall(k: nat, cols: nat)
    requires k < cols
    ensures k / cols == 0 && k % cols == k
  {
  }

  lemma {:induction false} MovesFromAt(b: Board, row: nat, k: nat)
    requires Rectangular(b) && row <= Rows(b) && k < |MovesFrom(b, row)|
    ensures Cols(b) > 0
    ensures MovesFrom(b, row)[k].row == row + k / Cols(b) && MovesFrom(b, row)[k].col == k % Cols(b)
    decreases Rows(b) - row
  {
    var cols := Cols(b);
    var first, rest := RowMoves(b, row, 0), MovesFrom(b, row + 1);
    assert MovesFrom(b, row) == first + rest;
    if k < cols {
      assert MovesFrom(b, row)[k] == first[k];
      DivModSmall(k, cols);
    } else {
      assert MovesFrom(b, row)[k] == rest[k - cols];
      MovesFromAt(b, row + 1, k - cols);
      DivModShift(k, cols);
    }
  }

  /** Candidate number k is the switch in row k / cols and column k % cols, with its score. */
  lemma CandidateAtIndex(b: Board, k: nat)
    requires Rectangular(b) && k < |AllMoveEntropies(b)|
    ensures Cols(b) > 0
    ensures var e := AllMoveEntropies(b)[k];
      e.row == k / Cols(b) && e.col == k % Cols(b) && e.ent == MoveEntropy(b, e.row, e.col)
  {
    assert b[0..] == b;
    MovesFromAt(b, 0, k);
    CandidatesScored(b);
  }

  /** There is one candidate per switch: rows times columns of them. */
  lemma CandidateCount(b: Board)
    requires Rectangular(b)
    ensures |AllMoveEntropies(b)| == Rows(b) * Cols(b)
  {
    SizeOfRectangular(b);
  }

  lemma {:induction false} MovesFromHas(b: Board, row: nat, r: nat, c: nat)
    requires Rectangular(b) && InRange(b, r, c) && row <= r
    ensures Candidate(r, c, MoveEntropy(b, r, c)) in MovesFrom(b, row)
    decreases r - row
  {
    if row == r {
      RowMovesScored(b, r, 0);
      assert RowMoves(b, r, 0)[c] == Candidate(r, c, MoveEntropy(b, r, c));
    } else {
      MovesFromHas(b, row + 1, r, c);
    }
  }

  /** Every switch appears among the candidates, with the score its toggle produces. */
  lemma EnumerationCoversEveryMove(b: Board, r: nat, c: nat)
    requires Rectangular(b) && InRange(b, r, c)
    ensures Candidate(r, c, MoveEntropy(b, r, c)) in AllMoveEntropies(b)
  {
    MovesFromHas(b, 0, r, c);
  }

  /** (row, col) comes strictly before (row', col') in row-major order. */
  predicate RowMajorBefore(x: Candidate, y: Candidate) {
    x.row < y.row || (x.row == y.row && x.col < y.col)
  }

  predicate StrictlyRowMajor(es: seq<Candidate>) {
    forall k, k' :: 0 <= k < k' < |es| ==> RowMajorBefore(es[k], es[k'])
  }

  lemma {:induction false} MovesFromRowMajor(b: Board, row: nat)
    requires Rectangular(b) && row <= Rows(b)
    ensures StrictlyRowMajor(MovesFrom(b, row))
    decreases Rows(b) - row
  {
    if row < Rows(b) {
      var first, rest := RowMoves(b, row, 0), MovesFrom(b, row + 1);
      MovesFromRowMajor(b, row + 1);
      var es := first + rest;
      forall k, k' | 0 <= k < k' < |es|
        ensures RowMajorBefore(es[k], es[k'])
      {
        if k' < |first| {
          assert es[k] == first[k] && es[k'] == first[k'];
        } else if k < |first| {
          assert es[k] == first[k] && es[k'] == rest[k' - |first|];
        } else {
          assert es[k] == rest[k - |first|] && es[k'] == rest[k' - |first|];
        }
      }
    }
  }

  /** The candidates are in strictly increasing row-major order: no switch appears twice. */
  lemma EnumerationIsRowMajor(b: Board)
    requires Rectangular(b)
    ensures StrictlyRowMajor(AllMoveEntropies(b))
  {
    MovesFromRowMajor(b, 0);
  }

  lemma EnterRow(b: Board, row: nat, es: seq<Candidate>, all: seq<Candidate>)
    requires Rectangular(b) && row < Rows(b) && es + MovesFrom(b, row) == all
    ensures es + RowMoves(b, row, 0) + MovesFrom(b, row + 1) == all
  {
    assert MovesFrom(b, row) == RowMoves(b, row, 0) + MovesFrom(b, row + 1);
  }

  lemma NextColumn(b: Board, row: nat, col: nat, es: seq<Candidate>, all: seq<Candidate>)
    requires Rectangular(b) && row < Rows(b) && col < Cols(b)
    requires es + RowMoves(b, row, col) + MovesFrom(b, row + 1) == all
    ensures es + [Candidate(row, col, MoveEntropy(b, row, col))] + RowMoves(b, row, col + 1) + MovesFrom(b, row + 1) == all
  {
    var x, t, u := Candidate(row, col, MoveEntropy(b, row, col)), RowMoves(b, row, col + 1), MovesFrom(b, row + 1);
    assert RowMoves(b, row, col) == [x] + t;
    assert es + ([x] + t) + u == es + [x] + t + u;
  }

  lemma LeaveRow(b: Board, row: nat, es: seq<Candidate>, all: seq<Candidate>)
    requires Rectangular(b) && row < Rows(b)
    requires es + RowMoves(b, row, Cols(b)) + MovesFrom(b, row + 1) == all
    ensures es + MovesFrom(b, row + 1) == all
  {
    assert RowMoves(b, row, Cols(b)) == [];
  }

  /** Score every switch of the board, row by row. */
  method FindAllMoveEntropies(board: array2<bool>) returns (es: seq<Candidate>)
    ensures es == AllMoveEntropies(Cells(board))
  {
    ghost var b := Cells(board);
    ghost var all := AllMoveEntropies(b);
    var rows, cols := board.Length0, board.Length1;
    es := [];
    for row := 0 to rows
      invariant es + MovesFrom(b, row) == all
    {
      EnterRow(b, row, es, all);
      for col := 0 to cols
        invariant es + RowMoves(b, row, col) + MovesFrom(b, row + 1) == all
      {
        var newBoard := FlipSwitch(board, row, col);
        var entropy := BoardEntropy(Cells(newBoard));
        NextColumn(b, row, col, es, all);
        es := es + [Candidate(row, col, entropy)];
      }
      LeaveRow(b, row, es, all);
    }
    assert MovesFrom(b, rows) == [];
  }

  /** The candidate the selector returns: the one at the drawn rank in the stable sort by score. */
  function Pick(b: Board, draws: seq<nat>): (m: Candidate)
    requires Rectangular(b) && Terminates(draws, Size(b))
    ensures InRange(b, m.row, m.col)
  {
    SelectByRank(AllMoveEntropies(b), draws)
  }

  /** The picked candidate carries the score of the board its toggle produces. */
  lemma PickScored(b: Board, draws: seq<nat>)
    requires Rectangular(b) && Terminates(draws, Size(b))
    ensures Pick(b, draws).ent == MoveEntropy(b, Pick(b, draws).row, Pick(b, draws).col)
  {
    CandidatesScored(b);
  }

  /** When the draw is rank 0 the selector is greedy: no move produces a lower score. */
  lemma RankZeroIsGreedy(b: Board, draws: seq<nat>)
    requires Rectangular(b) && Terminates(draws, Size(b)) && Rank(draws, Size(b)) == 0
    ensures forall r: nat, c: nat :: InRange(b, r, c) ==> Pick(b, draws).ent <= MoveEntropy(b, r, c)
  {
    var es := AllMoveEntropies(b);
    var m := Pick(b, draws);
    SelectAtRankZero(es, draws);
    forall r: nat, c: nat | InRange(b, r, c)
      ensures m.ent <= MoveEntropy(b, r, c)
    {
      EnumerationCoversEveryMove(b, r, c);
      var k :| 0 <= k < |es| && es[k] == Candidate(r, c, MoveEntropy(b, r, c));
    }
  }

  /**
   * Score every move, sort the candidates stably by score, then draw ranks
   * until one is in range and return the candidate at that rank.
   */
  method SampleLowEntropyMove(board: array2<bool>, draws: seq<nat>) returns (m: Candidate)
    requires Terminates(draws, Size(Cells(board)))
    ensures m.row < board.Length0 && m.col < board.Length1
    ensures m == Pick(Cells(board), draws)
  {
    ghost var b := Cells(board);
    var len := Size(Cells(board));
    var entropies := FindAllMoveEntropies(board);
    entropies := SortByEntropy(entropies);
    ghost var fit := FirstFit(draws, len);
    var n := draws[0];
    var drawn := 1;
    while n > len - 1
      invariant 1 <= drawn <= fit + 1
      invariant n == draws[drawn - 1]
      decreases fit + 1 - drawn
    {
      n := draws[drawn];
      drawn := drawn + 1;
    }
    assert drawn - 1 == fit;
    m := entropies[n];
    assert m == SelectByRank(AllMoveEntropies(b), draws);
  }

  /** Each of the first n streams of draws eventually yields a rank below `len`. */
  predicate DrawsTerminate(draws: seq<seq<nat>>, n: nat, len: nat) {
    n <= |draws| && forall i :: 0 <= i < n ==> Terminates(draws[i], len)
  }

  /**
   * The moves of the first n steps of the search: step i picks a move on the
   * board reached so far, drawing its rank from draws[i].
   */
  function Steps(b: Board, draws: seq<seq<nat>>, n: nat): (ms: seq<Move>)
    requires Rectangular(b) && DrawsTerminate(draws, n, Size(b))
    ensures |ms| == n && MovesInRange(b, ms)
  {
    if n == 0 then []
    else
      var prev := Steps(b, draws, n - 1);
      var m := Pick(ApplyMoves(b, prev), draws[n - 1]);
      prev + [Move(m.row, m.col)]
  }

  /** The scores of the boards along `ms`: entry j is the score after the first j + 1 moves. */
  function ScoresAlong(b: Board, ms: seq<Move>): (scores: seq<nat>)
    requires Rectangular(b) && MovesInRange(b, ms)
    ensures |scores| == |ms|
    decreases |ms|
  {
    if ms == [] then [] else ScoresAlong(b, ms[..|ms| - 1]) + [BoardEntropy(ApplyMoves(b, ms))]
  }

  lemma {:induction false} ScoresAlongAt(b: Board, ms: seq<Move>, j: nat)
    requires Rectangular(b) && MovesInRange(b, ms) && j < |ms|
    ensures ScoresAlong(b, ms)[j] == BoardEntropy(ApplyMoves(b, ms[..j + 1]))
    decreases |ms|
  {
    if j < |ms| - 1 {
      var init := ms[..|ms| - 1];
      ScoresAlongAt(b, init, j);
      assert init[..j + 1] == ms[..j + 1];
    } else {
      assert ms[..j + 1] == ms;
    }
  }

  /**
   * Position k (counting from 1) is the board the search keeps, given the
   * scores along its moves and the top score: k = 0 if no score is below the
   * top; otherwise score k is below the top, no score is lower, and every
   * earlier score is higher.
   */
  predicate IsFirstMinBelow(scores: seq<int>, top: int, k: nat) {
    && k <= |scores|
    && (k == 0 ==> forall j :: 0 <= j < |scores| ==> scores[j] >= top)
    && (k > 0 ==>
      && scores[k - 1] < top
      && (forall j :: 0 <= j < |scores| ==> scores[k - 1] <= scores[j])
      && (forall j :: 0 <= j < k - 1 ==> scores[k - 1] < scores[j]))
  }

  /** The kept position is determined by the scores. */
  lemma FirstMinUnique(scores: seq<int>, top: int, k1: nat, k2: nat)
    requires IsFirstMinBelow(scores, top, k1) && IsFirstMinBelow(scores, top, k2)
    ensures k1 == k2
  {
  }

  /** One more score keeps the kept position up to date, replacing it only on a strict decrease. */
  lemma FirstMinStep(scores: seq<int>, top: int, k: nat, e: int)
    requires IsFirstMinBelow(scores, top, k)
    ensures e < (if k == 0 then top else scores[k - 1]) ==> IsFirstMinBelow(scores + [e], top, |scores| + 1)
    ensures e >= (if k == 0 then top else scores[k - 1]) ==> IsFirstMinBelow(scores + [e], top, k)
  {
    var next := scores + [e];
    assert forall j :: 0 <= j < |scores| ==> next[j] == scores[j];
  }

  /** The board reached by the first j moves of `ms`. */
  function BoardAfter(b: Board, ms: seq<Move>, j: nat): (r: Board)
    requires Rectangular(b) && MovesInRange(b, ms) && j <= |ms|
    ensures Rectangular(r) && Size(r) == Size(b)
  {
    ApplyMoves(b, ms[..j])
  }

  /** The kept board scores below the top and no board along the moves scores lower. */
  lemma KeptBoardIsLowest(b: Board, ms: seq<Move>, k: nat)
    requires Rectangular(b) && MovesInRange(b, ms)
    requires IsFirstMinBelow(ScoresAlong(b, ms), Top(b), k) && 0 < k
    ensures BoardEntropy(BoardAfter(b, ms, k)) < Top(b)
    ensures forall j :: 1 <= j <= |ms| ==> BoardEntropy(BoardAfter(b, ms, k)) <= BoardEntropy(BoardAfter(b, ms, j))
  {
    var scores := ScoresAlong(b, ms);
    var kept := BoardAfter(b, ms, k);
    ScoresAlongAt(b, ms, k - 1);
    assert BoardEntropy(kept) == scores[k - 1];
    forall j | 1 <= j <= |ms|
      ensures BoardEntropy(kept) <= BoardEntropy(BoardAfter(b, ms, j))
    {
      ScoresAlongAt(b, ms, j - 1);
      assert BoardEntropy(BoardAfter(b, ms, j)) == scores[j - 1];
      assert scores[k - 1] <= scores[j - 1];
    }
  }

  /**
   * When no board is kept, every board along the moves scored the top value:
   * each had exactly half of its switches on.
   */
  lemma NothingKeptMeansHalfOn(b: Board, ms: seq<Move>)
    requires Rectangular(b) && MovesInRange(b, ms)
    requires IsFirstMinBelow(ScoresAlong(b, ms), Top(b), 0)
    ensures forall j :: 1 <= j <= |ms| ==> 2 * TrueCount(BoardAfter(b, ms, j)) == Size(b)
  {
    forall j | 1 <= j <= |ms|
      ensures 2 * TrueCount(BoardAfter(b, ms, j)) == Size(b)
    {
      var after := BoardAfter(b, ms, j);
      ScoresAlongAt(b, ms, j - 1);
      assert BoardEntropy(after) >= Top(b);
      TopEntropyIffHalf(after);
    }
  }

  lemma PrefixOfAppend<T>(s: seq<T>, x: T, k: nat)
    requires k <= |s|
    ensures (s + [x])[..k] == s[..k]
  {
  }

  lemma PrefixOfAll<T>(s: seq<T>)
    ensures s[..|s|] == s
  {
  }

  lemma ElementOfAppend<T>(s: seq<T>, x: T, k: nat)
    requires k < |s|
    ensures (s + [x])[k] == s[k]
  {
  }

  /**
   * The search's record of the best board so far: k is the first position of
   * the lowest score below the top (0 if none), and minEnt is that score (the
   * top if none).
   */
  predicate Tracks(scores: seq<int>, top: int, k: nat, minEnt: int) {
    IsFirstMinBelow(scores, top, k) && minEnt == if k == 0 then top else scores[k - 1]
  }

  /** The update `if ent < min_ent { ... }` keeps the record up to date. */
  lemma TracksStep(scores: seq<int>, top: int, k: nat, minEnt: int, e: int)
    requires Tracks(scores, top, k, minEnt)
    ensures e < minEnt ==> Tracks(scores + [e], top, |scores| + 1, e)
    ensures e >= minEnt ==> Tracks(scores + [e], top, k, minEnt)
  {
    FirstMinStep(scores, top, k, e);
    if 0 < k {
      ElementOfAppend(scores, e, k - 1);
    }
  }

  /** One step of the search: the move picked on the current board extends the moves, the boards and the scores. */
  lemma SearchStep(b: Board, draws: seq<seq<nat>>, i: nat, moves: seq<Move>, m: Candidate)
    requires Rectangular(b) && DrawsTerminate(draws, i + 1, Size(b))
    requires moves == Steps(b, draws, i)
    requires m == Pick(ApplyMoves(b, moves), draws[i])
    ensures Steps(b, draws, i + 1) == moves + [Move(m.row, m.col)]
    ensures ApplyMoves(b, moves + [Move(m.row, m.col)]) == Flip(ApplyMoves(b, moves), m.row, m.col)
    ensures ScoresAlong(b, moves + [Move(m.row, m.col)]) == ScoresAlong(b, moves) + [m.ent]
  {
    var all := moves + [Move(m.row, m.col)];
    assert all[..|all| - 1] == moves;
    PickScored(ApplyMoves(b, moves), draws[i]);
  }

  /**
   * The state of the search after i steps from `start`: the moves made, the
   * board reached (`now`), the scores seen, and the record of the best board
   * (`kept`, reached by the prefix `bestMoves` of the moves, with score `minEnt`).
   */
  predicate SearchState(start: Board, draws: seq<seq<nat>>, i: nat, moves: seq<Move>, scores: seq<int>,
                        bestMoves: seq<Move>, minEnt: int, now: Board, kept: Board)
  {
    && Rectangular(start) && DrawsTerminate(draws, i, Size(start))
    && moves == Steps(start, draws, i)
    && now == ApplyMoves(start, moves)
    && scores == ScoresAlong(start, moves)
    && Tracks(scores, Top(start), |bestMoves|, minEnt)
    && bestMoves == moves[..|bestMoves|]
    && kept == ApplyMoves(start, bestMoves)
  }

  /** While a board is kept, the recorded lowest score is the score of the kept board. */
  lemma KeptScoreIsRecorded(start: Board, draws: seq<seq<nat>>, i: nat, moves: seq<Move>, scores: seq<int>,
                            bestMoves: seq<Move>, minEnt: int, now: Board, kept: Board)
    requires SearchState(start, draws, i, moves, scores, bestMoves, minEnt, now, kept)
    requires |bestMoves| > 0
    ensures minEnt == BoardEntropy(kept)
  {
    ScoresAlongAt(start, moves, |bestMoves| - 1);
  }

  /** The loop body of the search keeps its state up to date. */
  lemma SearchStateStep(start: Board, draws: seq<seq<nat>>, i: nat, moves: seq<Move>, scores: seq<int>,
                        bestMoves: seq<Move>, minEnt: int, now: Board, kept: Board, m: Candidate)
    requires SearchState(start, draws, i, moves, scores, bestMoves, minEnt, now, kept)
    requires DrawsTerminate(draws, i + 1, Size(start))
    requires m == Pick(now, draws[i])
    ensures var moves', now' := moves + [Move(m.row, m.col)], Flip(now, m.row, m.col);
      if m.ent < minEnt
      then SearchState(start, draws, i + 1, moves', scores + [m.ent], moves', m.ent, now', now')
      else SearchState(start, draws, i + 1, moves', scores + [m.ent], bestMoves, minEnt, now', kept)
  {
    var moves' := moves + [Move(m.row, m.col)];
    SearchStep(start, draws, i, moves, m);
    TracksStep(scores, Top(start), |bestMoves|, minEnt, m.ent);
    PrefixOfAppend(moves, Move(m.row, m.col), |bestMoves|);
    PrefixOfAll(moves');
  }

  /**
   * One pass of the search loop: pick a move on the current board, toggle
   * it, record it, and keep a copy of the new board if its score is a strict
   * improvement.
   */
  method SearchIteration(ghost start: Board, draws: seq<seq<nat>>, i: nat, current: array2<bool>, best: array2<bool>,
                         moves: seq<Move>, bestMoves: seq<Move>, minEnt: int,
                         ghost scores: seq<int>, ghost now: Board, ghost kept: Board)
      returns (current': array2<bool>, best': array2<bool>, moves': seq<Move>, bestMoves': seq<Move>, minEnt': int,
               ghost scores': seq<int>, ghost now': Board, ghost kept': Board)
    requires SearchState(start, draws, i, moves, scores, bestMoves, minEnt, now, kept)
    requires DrawsTerminate(draws, i + 1, Size(start))
    requires Cells(current) == now && Cells(best) == kept
    ensures SearchState(start, draws, i + 1, moves', scores', bestMoves', minEnt', now', kept')
    ensures current'.Length0 == current.Length0 && current'.Length1 == current.Length1
    ensures Cells(current') == now' && Cells(best') == kept'
  {
    var m := SampleLowEntropyMove(current, draws[i]);
    SearchStateStep(start, draws, i, moves, scores, bestMoves, minEnt, now, kept, m);
    current' := FlipSwitch(current, m.row, m.col);
    now' := Flip(now, m.row, m.col);
    moves' := moves + [Move(m.row, m.col)];
    scores' := scores + [m.ent];
    if m.ent < minEnt {
      minEnt' := m.ent;
      best' := CloneBoard(current');
      kept' := now';
      bestMoves' := moves';
    } else {
      minEnt', best', kept', bestMoves' := minEnt, best, kept, bestMoves;
    }
  }

  /**
   * Run the search for `maxSteps` steps, step i drawing its rank from
   * `draws[i]`; return the first board with the lowest score seen (if any
   * scored below the top value, else the initial board) and the moves that
   * produced it.
   */
  method MinimizeBoardEntropy(board: array2<bool>, maxSteps: nat, draws: seq<seq<nat>>)
      returns (best: array2<bool>, bestMoves: seq<Move>)
    requires DrawsTerminate(draws, maxSteps, Size(Cells(board)))
    ensures var moves := Steps(Cells(board), draws, maxSteps);
      && IsFirstMinBelow(ScoresAlong(Cells(board), moves), Top(Cells(board)), |bestMoves|)
      && bestMoves == moves[..|bestMoves|]
    ensures Cells(best) == ApplyMoves(Cells(board), bestMoves)
    ensures maxSteps == 0 ==> bestMoves == [] && Cells(best) == Cells(board)
  {
    ghost var start := Cells(board);
    var minEnt := Top(Cells(board));
    best := CloneBoard(board);
    bestMoves := [];
    var current := board;
    var moves: seq<Move> := [];
    ghost var scores: seq<int> := [];
    ghost var now, kept := start, start;
    for i := 0 to maxSteps
      invariant SearchState(start, draws, i, moves, scores, bestMoves, minEnt, now, kept)
      invariant current.Length0 == board.Length0 && current.Length1 == board.Length1
      invariant Cells(current) == now && Cells(best) == kept
    {
      current, best, moves, bestMoves, minEnt, scores, now, kept :=
        SearchIteration(start, draws, i, current, best, moves, bestMoves, minEnt, scores, now, kept);
    }
  }
}
