/**
 * The switch board and the toggle operation.
 *
 * A board is a rows x cols grid of switches. Toggling the switch at
 * (row, col) inverts every switch in its row and every switch in its
 * column ("the cross" of (row, col)). The specification works on boards as
 * sequences of rows; the operations that the program performs in place
 * work on `array2<bool>` and are proved against the specification.
 */
module Switchboard {

  /** A board, row by row. */
  type Board = seq<seq<bool>>

  /** A flip that has been (or will be) applied to a board. */
  datatype Move = Move(row: nat, col: nat)

  function Rows(b: Board): nat { |b| }

  function Cols(b: Board): nat { if |b| == 0 then 0 else |b[0]| }

  /** Every row has the same length, as in a two-dimensional array. */
  predicate Rectangular(b: Board) {
    forall i :: 0 <= i < |b| ==> |b[i]| == Cols(b)
  }

  predicate InRange(b: Board, row: nat, col: nat) {
    row < Rows(b) && col < Cols(b)
  }

  /** Cell (i, j) lies in the row or in the column of the switch (row, col). */
  predicate InCross(row: nat, col: nat, i: nat, j: nat) {
    i == row || j == col
  }

  /** The number of switches of a board (the array's `len()`). */
  function Size(b: Board): nat {
    if b == [] then 0 else |b[0]| + Size(b[1..])
  }

  /** Boards whose rows have the same lengths have the same size. */
  lemma {:induction false} SizeOfSameShape(a: Board, b: Board)
    requires |a| == |b| && forall i :: 0 <= i < |a| ==> |a[i]| == |b[i]|
    ensures Size(a) == Size(b)
  {
    if a != [] {
      assert forall i :: 0 <= i < |a| - 1 ==> a[1..][i] == a[i + 1] && b[1..][i] == b[i + 1];
      SizeOfSameShape(a[1..], b[1..]);
    }
  }

  lemma {:induction false} SizeOfRectangular(b: Board)
    requires Rectangular(b)
    ensures Size(b) == Rows(b) * Cols(b)
  {
    if b != [] {
      var rest := b[1..];
      assert Rectangular(rest) && (rest != [] ==> Cols(rest) == Cols(b)) by {
        forall i | 0 <= i < |rest| ensures |rest[i]| == Cols(b) {
          assert rest[i] == b[i + 1];
        }
      }
      SizeOfRectangular(rest);
      assert Size(rest) == (Rows(b) - 1) * Cols(b);
    }
  }

  /** The board after toggling (row, col): a cell is inverted exactly when it lies in the cross. */
  function Flip(b: Board, row: nat, col: nat): (r: Board)
    requires Rectangular(b) && InRange(b, row, col)
    ensures Rectangular(r) && Rows(r) == Rows(b) && Cols(r) == Cols(b) && Size(r) == Size(b)
  {
    var r := seq(|b|, i requires 0 <= i < |b| =>
      seq(|b[i]|, j requires 0 <= j < |b[i]| => b[i][j] != InCross(row, col, i, j)));
    SizeOfSameShape(r, b);
    r
  }

  /** A cell changes exactly when it lies in the cross; the shape is kept. */
  lemma FlipInvertsExactlyCross(b: Board, row: nat, col: nat)
    requires Rectangular(b) && InRange(b, row, col)
    ensures forall i, j :: 0 <= i < Rows(b) && 0 <= j < Cols(b) ==>
      (Flip(b, row, col)[i][j] != b[i][j] <==> InCross(row, col, i, j))
  {
  }

  /** Toggling the same switch twice restores the board. */
  lemma FlipInvolution(b: Board, row: nat, col: nat)
    requires Rectangular(b) && InRange(b, row, col)
    ensures Flip(Flip(b, row, col), row, col) == b
  {
    var f := Flip(Flip(b, row, col), row, col);
    assert |f| == |b|;
    forall i | 0 <= i < |b|
      ensures f[i] == b[i]
    {
      assert |f[i]| == |b[i]|;
    }
  }

  /** Toggles commute: the board reached does not depend on the order of two flips. */
  lemma FlipCommutes(b: Board, r1: nat, c1: nat, r2: nat, c2: nat)
    requires Rectangular(b) && InRange(b, r1, c1) && InRange(b, r2, c2)
    ensures Flip(Flip(b, r1, c1), r2, c2) == Flip(Flip(b, r2, c2), r1, c1)
  {
    var f := Flip(Flip(b, r1, c1), r2, c2);
    var g := Flip(Flip(b, r2, c2), r1, c1);
    assert |f| == |g|;
    forall i | 0 <= i < |b|
      ensures f[i] == g[i]
    {
      assert |f[i]| == |g[i]|;
    }
  }

  predicate MovesInRange(b: Board, ms: seq<Move>) {
    forall k :: 0 <= k < |ms| ==> InRange(b, ms[k].row, ms[k].col)
  }

  /** The board reached from `b` by applying the moves of `ms` in order. */
  function ApplyMoves(b: Board, ms: seq<Move>): (r: Board)
    requires Rectangular(b) && MovesInRange(b, ms)
    ensures Rectangular(r) && Rows(r) == Rows(b) && Cols(r) == Cols(b) && Size(r) == Size(b)
    decreases |ms|
  {
    if ms == [] then b
    else
      var last := ms[|ms| - 1];
      Flip(ApplyMoves(b, ms[..|ms| - 1]), last.row, last.col)
  }

  /** Applying `ms` and then `ns` is applying `ms + ns`. */
  lemma {:induction false} ApplyMovesAppend(b: Board, ms: seq<Move>, ns: seq<Move>)
    requires Rectangular(b) && MovesInRange(b, ms) && MovesInRange(b, ns)
    ensures MovesInRange(b, ms + ns)
    ensures ApplyMoves(b, ms + ns) == ApplyMoves(ApplyMoves(b, ms), ns)
    decreases |ns|
  {
    var all := ms + ns;
    assert MovesInRange(b, all) by {
      forall k | 0 <= k < |all| ensures InRange(b, all[k].row, all[k].col) {
        if k >= |ms| { assert all[k] == ns[k - |ms|]; }
      }
    }
    if ns != [] {
      var init := ns[..|ns| - 1];
      assert all[..|all| - 1] == ms + init;
      assert MovesInRange(b, init);
      ApplyMovesAppend(b, ms, init);
    } else {
      assert all == ms;
    }
  }

  function Reverse(ms: seq<Move>): (r: seq<Move>)
    ensures |r| == |ms|
    ensures forall k :: 0 <= k < |ms| ==> r[k] == ms[|ms| - 1 - k]
  {
    if ms == [] then [] else [ms[|ms| - 1]] + Reverse(ms[..|ms| - 1])
  }

  /** Applying the same moves again, in reverse order, restores the board. */
  lemma {:induction false} UndoMoves(b: Board, ms: seq<Move>)
    requires Rectangular(b) && MovesInRange(b, ms)
    ensures MovesInRange(ApplyMoves(b, ms), Reverse(ms))
    ensures ApplyMoves(ApplyMoves(b, ms), Reverse(ms)) == b
    decreases |ms|
  {
    var after := ApplyMoves(b, ms);
    var rev := Reverse(ms);
    assert MovesInRange(after, rev) by {
      forall k | 0 <= k < |rev| ensures InRange(after, rev[k].row, rev[k].col) {
        assert rev[k] == ms[|ms| - 1 - k];
      }
    }
    if ms != [] {
      var last := ms[|ms| - 1];
      var init := ms[..|ms| - 1];
      var before := ApplyMoves(b, init);
      assert rev == [last] + Reverse(init);
      assert MovesInRange(after, [last]);
      assert MovesInRange(after, Reverse(init)) by {
        forall k | 0 <= k < |Reverse(init)|
          ensures InRange(after, Reverse(init)[k].row, Reverse(init)[k].col)
        {
          assert Reverse(init)[k] == rev[k + 1];
        }
      }
      ApplyMovesAppend(after, [last], Reverse(init));
      assert [last][..0] == [];
      assert ApplyMoves(after, [last]) == Flip(after, last.row, last.col);
      FlipInvolution(before, last.row, last.col);
      UndoMoves(b, init);
    }
  }

  /** The cells of a two-dimensional array, row by row. */
  function Cells(a: array2<bool>): (b: Board)
    reads a
    ensures Rectangular(b) && Rows(b) == a.Length0
    ensures a.Length0 > 0 ==> Cols(b) == a.Length1
    ensures forall i, j :: 0 <= i < a.Length0 && 0 <= j < a.Length1 ==> b[i][j] == a[i, j]
  {
    seq(a.Length0, i requires 0 <= i < a.Length0 reads a =>
      seq(a.Length1, j requires 0 <= j < a.Length1 reads a => a[i, j]))
  }

  /** The array's `len()`: the product of its two dimensions. */
  lemma SizeOfCells(a: array2<bool>)
    ensures Size(Cells(a)) == a.Length0 * a.Length1
  {
    SizeOfRectangular(Cells(a));
  }

  /** A copy of the board in a new array. */
  method CloneBoard(a: array2<bool>) returns (c: array2<bool>)
    ensures fresh(c)
    ensures c.Length0 == a.Length0 && c.Length1 == a.Length1
    ensures Cells(c) == Cells(a)
  {
    c := new bool[a.Length0, a.Length1]((i, j) reads a =>
      if 0 <= i < a.Length0 && 0 <= j < a.Length1 then a[i, j] else false);
    forall i | 0 <= i < a.Length0
      ensures Cells(c)[i] == Cells(a)[i]
    {
      assert |Cells(c)[i]| == |Cells(a)[i]|;
    }
  }

  /** An array that differs from `board` exactly on the cross of (row, col) holds the flipped board. */
  lemma CellsOfFlip(flipped: array2<bool>, board: array2<bool>, row: nat, col: nat)
    requires row < board.Length0 && col < board.Length1
    requires flipped.Length0 == board.Length0 && flipped.Length1 == board.Length1
    requires forall i, k :: 0 <= i < board.Length0 && 0 <= k < board.Length1 ==>
      flipped[i, k] == (board[i, k] != InCross(row, col, i, k))
    ensures Cells(flipped) == Flip(Cells(board), row, col)
  {
    var after, spec := Cells(flipped), Flip(Cells(board), row, col);
    forall i | 0 <= i < board.Length0
      ensures after[i] == spec[i]
    {
      assert |after[i]| == |spec[i]|;
    }
  }

  /**
   * Toggle the switch at (row, col) on a copy of the board: invert the row,
   * then the column, then the cell itself once more (the sweeps inverted it
   * twice), so that every cell of the cross is inverted exactly once.
   */
  method FlipSwitch(board: array2<bool>, row: nat, col: nat) returns (flipped: array2<bool>)
    requires row < board.Length0 && col < board.Length1
    ensures fresh(flipped)
    ensures flipped.Length0 == board.Length0 && flipped.Length1 == board.Length1
    ensures Cells(flipped) == Flip(Cells(board), row, col)
  {
    flipped := CloneBoard(board);
    var rows, cols := flipped.Length0, flipped.Length1;
    for j := 0 to cols
      invariant forall i, k :: 0 <= i < rows && 0 <= k < cols ==>
        flipped[i, k] == (board[i, k] != (i == row && k < j))
    {
      flipped[row, j] := !flipped[row, j];
    }
    for i := 0 to rows
      invariant forall i', k :: 0 <= i' < rows && 0 <= k < cols ==>
        flipped[i', k] == ((board[i', k] != (i' == row)) != (k == col && i' < i))
    {
      flipped[i, col] := !flipped[i, col];
    }
    flipped[row, col] := !flipped[row, col];
    CellsOfFlip(flipped, board, row, col);
  }
}
