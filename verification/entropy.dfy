/**
 * The score of a board.
 *
 * The program scores a board by the binary entropy H(p) of the fraction p
 * of switches that are on. The search only ever compares scores of boards
 * of the same size with each other, or with the top value H = 1.0. For a
 * fixed number of cells n, H(k / n) is symmetric in k and n - k and strictly
 * increasing while k <= n / 2, so it is ordered exactly as
 * 2 * min(k, n - k). This module uses that integer as the score: it is 0
 * exactly on uniform boards and reaches its top value n exactly where
 * H reaches 1.0.
 */
module EntropyMetric {
  import opened Switchboard

  /** The number of switches that are on in one row. */
  function RowCount(row: seq<bool>): (n: nat)
    ensures n <= |row|
  {
    if row == [] then 0 else (if row[0] then 1 else 0) + RowCount(row[1..])
  }

  /** The number of switches that are on. */
  function TrueCount(b: Board): (n: nat)
    ensures n <= Size(b)
  {
    if b == [] then 0 else RowCount(b[0]) + TrueCount(b[1..])
  }

  /** The score of a board with `trues` switches on out of `cells`. */
  function Entropy(trues: nat, cells: nat): (e: nat)
    requires trues <= cells
    ensures e <= cells
    ensures e == 0 <==> trues == 0 || trues == cells
    ensures e == cells <==> 2 * trues == cells
  {
    if 2 * trues <= cells then 2 * trues else 2 * (cells - trues)
  }

  function Distance(x: int, y: int): nat { if x <= y then y - x else x - y }

  /** The score that stands for "worse than any board seen": binary entropy 1.0. */
  function Top(b: Board): (t: nat)
    ensures forall k :: 0 <= k <= Size(b) ==> Entropy(k, Size(b)) <= t
    ensures Size(b) % 2 == 0 ==> Entropy(Size(b) / 2, Size(b)) == t
  {
    Size(b)
  }

  /** The score of a board: a function of its number of switches on and of its size only. */
  function BoardEntropy(b: Board): (e: nat)
    ensures e <= Top(b)
  {
    Entropy(TrueCount(b), Size(b))
  }

  /**
   * The score orders boards of one size as binary entropy does: the further
   * the fraction of switches on lies from one half, the lower the score.
   */
  lemma EntropyFollowsBalance(k1: nat, k2: nat, n: nat)
    requires k1 <= n && k2 <= n
    ensures Entropy(k1, n) <= Entropy(k2, n) <==> Distance(2 * k1, n) >= Distance(2 * k2, n)
  {
  }

  /** Two boards of the same size with as many switches on score the same. */
  lemma SameCountSameEntropy(a: Board, b: Board)
    requires Size(a) == Size(b) && TrueCount(a) == TrueCount(b)
    ensures BoardEntropy(a) == BoardEntropy(b)
  {
  }

  /** Every switch of the board holds `v`. */
  predicate AllCells(b: Board, v: bool) {
    forall i, j :: 0 <= i < |b| && 0 <= j < |b[i]| ==> b[i][j] == v
  }

  lemma {:induction false} RowCountExtremes(row: seq<bool>)
    ensures RowCount(row) == 0 <==> forall j :: 0 <= j < |row| ==> !row[j]
    ensures RowCount(row) == |row| <==> forall j :: 0 <= j < |row| ==> row[j]
  {
    if row != [] {
      var rest := row[1..];
      RowCountExtremes(rest);
      assert forall j :: 1 <= j < |row| ==> row[j] == rest[j - 1];
    }
  }

  /** No switch is on exactly when the count is 0; all are on exactly when it is the size. */
  lemma {:induction false} TrueCountExtremes(b: Board)
    ensures TrueCount(b) == 0 <==> AllCells(b, false)
    ensures TrueCount(b) == Size(b) <==> AllCells(b, true)
  {
    if b != [] {
      var rest := b[1..];
      TrueCountExtremes(rest);
      RowCountExtremes(b[0]);
      assert forall i :: 1 <= i < |b| ==> b[i] == rest[i - 1];
      assert AllCells(b, false) <==> (forall j :: 0 <= j < |b[0]| ==> !b[0][j]) && AllCells(rest, false);
      assert AllCells(b, true) <==> (forall j :: 0 <= j < |b[0]| ==> b[0][j]) && AllCells(rest, true);
    }
  }

  /** The score is 0 exactly on a uniform board (all off or all on). */
  lemma ZeroEntropyIffUniform(b: Board)
    ensures BoardEntropy(b) == 0 <==> AllCells(b, false) || AllCells(b, true)
  {
    TrueCountExtremes(b);
  }

  function Negate(row: seq<bool>): (r: seq<bool>)
    ensures |r| == |row|
  {
    seq(|row|, j requires 0 <= j < |row| => !row[j])
  }

  /** The board with every switch inverted. */
  function Complement(b: Board): (c: Board)
    ensures |c| == |b|
  {
    seq(|b|, i requires 0 <= i < |b| => Negate(b[i]))
  }

  lemma {:induction false} RowCountNegate(row: seq<bool>)
    ensures RowCount(Negate(row)) == |row| - RowCount(row)
  {
    if row != [] {
      assert Negate(row)[1..] == Negate(row[1..]);
      RowCountNegate(row[1..]);
    }
  }

  /** Inverting every switch turns k switches on out of n into n - k. */
  lemma {:induction false} ComplementTrueCount(b: Board)
    ensures Size(Complement(b)) == Size(b)
    ensures TrueCount(Complement(b)) == Size(b) - TrueCount(b)
  {
    if b != [] {
      assert Complement(b)[1..] == Complement(b[1..]);
      RowCountNegate(b[0]);
      ComplementTrueCount(b[1..]);
    }
  }

  /** A board and its complement score the same. */
  lemma ComplementSameEntropy(b: Board)
    ensures BoardEntropy(Complement(b)) == BoardEntropy(b)
  {
    ComplementTrueCount(b);
  }

  /** The score is at its top (binary entropy 1.0) exactly when half of the switches are on. */
  lemma TopEntropyIffHalf(b: Board)
    ensures BoardEntropy(b) == Top(b) <==> 2 * TrueCount(b) == Size(b)
  {
  }

  // The count of switches that are on, accumulated as in the program in an
  // unsigned 8-bit integer; a release build wraps the sum modulo 256.

  function NumTrueU8(b: Board): (n: nat)
    ensures n < 256
  {
    TrueCount(b) % 256
  }

  /** The score computed from the 8-bit count, as the program computes it. */
  function BoardEntropyAsWritten(b: Board): (e: nat)
    ensures e <= Top(b)
    ensures TrueCount(b) < 256 ==> e == BoardEntropy(b)
  {
    Entropy(NumTrueU8(b), Size(b))
  }

  /** On boards of at most 255 cells the 8-bit count is exact, and so is the score. */
  lemma U8CountExactWhenSmall(b: Board)
    requires Size(b) <= 255
    ensures NumTrueU8(b) == TrueCount(b)
    ensures BoardEntropyAsWritten(b) == BoardEntropy(b)
  {
  }

  function Constant(v: bool, n: nat): (row: seq<bool>)
    ensures |row| == n
  {
    if n == 0 then [] else [v] + Constant(v, n - 1)
  }

  lemma {:induction false} RowCountAppend(r: seq<bool>, s: seq<bool>)
    ensures RowCount(r + s) == RowCount(r) + RowCount(s)
  {
    if r != [] {
      assert (r + s)[0] == r[0];
      assert (r + s)[1..] == r[1..] + s;
      RowCountAppend(r[1..], s);
    } else {
      assert r + s == s;
    }
  }

  lemma {:induction false} RowCountConstant(v: bool, n: nat)
    ensures RowCount(Constant(v, n)) == if v then n else 0
  {
    if n > 0 {
      RowCountConstant(v, n - 1);
    }
  }

  /**
   * A 1 x 300 board with 257 switches on: the 8-bit count wraps to 1, so the
   * program scores it as a board with a single switch on (a score near the
   * lowest) although most of its switches are on and its true score is 86.
   */
  lemma U8CountWraps()
    ensures var b := [Constant(true, 257) + Constant(false, 43)];
      && Rectangular(b) && Size(b) == 300 && TrueCount(b) == 257
      && NumTrueU8(b) == 1 && BoardEntropyAsWritten(b) == 2
      && BoardEntropy(b) == 86
  {
    var row := Constant(true, 257) + Constant(false, 43);
    var b := [row];
    RowCountAppend(Constant(true, 257), Constant(false, 43));
    RowCountConstant(true, 257);
    RowCountConstant(false, 43);
    assert b[1..] == [];
    assert Size(b) == 300;
    assert TrueCount(b) == 257;
  }
}
