/**
 * Scored moves and their ordering.
 *
 * A candidate is a switch together with the score of the board that
 * toggling it would produce. The selector sorts the candidates by score with
 * a stable sort; the sort is modelled here as a stable insertion sort,
 * proved sorted, a permutation of its input, and stable. The selector then
 * takes the candidate at a rank drawn at random, redrawn until it is in
 * range; the stream of draws is an input.
 */
module Candidates {

  /** A switch (row, col) and the score of the board after toggling it. */
  datatype Candidate = Candidate(row: nat, col: nat, ent: int)

  predicate SortedByEntropy(s: seq<Candidate>) {
    forall i, j :: 0 <= i < j < |s| ==> s[i].ent <= s[j].ent
  }

  /** Insert `x` before the first element of `s` that does not score below it. */
  function Insert(x: Candidate, s: seq<Candidate>): (r: seq<Candidate>)
    requires SortedByEntropy(s)
    ensures SortedByEntropy(r)
    ensures |r| == |s| + 1
    ensures r[0] == x || (s != [] && r[0] == s[0])
  {
    if s == [] || x.ent <= s[0].ent then [x] + s
    else [s[0]] + Insert(x, s[1..])
  }

  lemma {:induction false} InsertPermutes(x: Candidate, s: seq<Candidate>)
    requires SortedByEntropy(s)
    ensures multiset(Insert(x, s)) == multiset(s) + multiset{x}
  {
    if s != [] && x.ent > s[0].ent {
      InsertPermutes(x, s[1..]);
      assert s == [s[0]] + s[1..];
    }
  }

  /** The candidates in non-decreasing order of score; equal scores keep their order. */
  function SortByEntropy(s: seq<Candidate>): (r: seq<Candidate>)
    ensures SortedByEntropy(r)
    ensures |r| == |s|
  {
    if s == [] then [] else Insert(s[0], SortByEntropy(s[1..]))
  }

  lemma MultisetCons(s: seq<Candidate>)
    requires s != []
    ensures multiset(s) == multiset(s[1..]) + multiset{s[0]}
  {
    assert s == [s[0]] + s[1..];
  }

  /** Sorting permutes the candidates. */
  lemma {:induction false} SortPermutes(s: seq<Candidate>)
    ensures multiset(SortByEntropy(s)) == multiset(s)
  {
    if s != [] {
      var rest := SortByEntropy(s[1..]);
      SortPermutes(s[1..]);
      InsertPermutes(s[0], rest);
      MultisetCons(s);
    }
  }

  /** The candidates of `s` that score exactly `e`, in their order in `s`. */
  function WithEntropy(s: seq<Candidate>, e: int): (r: seq<Candidate>)
    ensures |r| <= |s|
  {
    if s == [] then [] else (if s[0].ent == e then [s[0]] else []) + WithEntropy(s[1..], e)
  }

  lemma WithEntropyCons(x: Candidate, s: seq<Candidate>, e: int)
    ensures WithEntropy([x] + s, e) == (if x.ent == e then [x] else []) + WithEntropy(s, e)
  {
    assert ([x] + s)[1..] == s;
  }

  lemma {:induction false} InsertIsStable(x: Candidate, s: seq<Candidate>, e: int)
    requires SortedByEntropy(s)
    ensures WithEntropy(Insert(x, s), e) == WithEntropy([x] + s, e)
  {
    if s != [] && x.ent > s[0].ent {
      var t := s[1..];
      assert s == [s[0]] + t;
      InsertIsStable(x, t, e);
      WithEntropyCons(s[0], Insert(x, t), e);
      WithEntropyCons(x, t, e);
      WithEntropyCons(x, s, e);
      WithEntropyCons(s[0], t, e);
      if x.ent == e {
        assert WithEntropy(s, e) == WithEntropy(t, e);
      } else if s[0].ent == e {
        assert WithEntropy([x] + t, e) == WithEntropy(t, e);
      }
    }
  }

  /** Stability: for every score, the candidates with that score appear in the same order as before. */
  lemma {:induction false} SortIsStable(s: seq<Candidate>, e: int)
    ensures WithEntropy(SortByEntropy(s), e) == WithEntropy(s, e)
  {
    if s != [] {
      var rest := SortByEntropy(s[1..]);
      InsertIsStable(s[0], rest, e);
      WithEntropyCons(s[0], rest, e);
      SortIsStable(s[1..], e);
      assert s == [s[0]] + s[1..];
      WithEntropyCons(s[0], s[1..], e);
    }
  }

  /** The number of candidates that score strictly below `e`. */
  function CountBelow(s: seq<Candidate>, e: int): (n: nat)
    ensures n <= |s|
  {
    if s == [] then 0 else (if s[0].ent < e then 1 else 0) + CountBelow(s[1..], e)
  }

  lemma CountBelowCons(x: Candidate, s: seq<Candidate>, e: int)
    ensures CountBelow([x] + s, e) == (if x.ent < e then 1 else 0) + CountBelow(s, e)
  {
    assert ([x] + s)[1..] == s;
  }

  lemma {:induction false} CountBelowAppend(s: seq<Candidate>, t: seq<Candidate>, e: int)
    ensures CountBelow(s + t, e) == CountBelow(s, e) + CountBelow(t, e)
  {
    if s == [] {
      assert s + t == t;
    } else {
      assert s + t == [s[0]] + (s[1..] + t);
      CountBelowCons(s[0], s[1..] + t, e);
      CountBelowAppend(s[1..], t, e);
    }
  }

  lemma {:induction false} CountBelowNone(s: seq<Candidate>, e: int)
    requires forall i :: 0 <= i < |s| ==> s[i].ent >= e
    ensures CountBelow(s, e) == 0
  {
    if s != [] {
      CountBelowNone(s[1..], e);
    }
  }

  /** No candidate scores below `e` exactly when the count is 0. */
  lemma {:induction false} CountBelowZero(s: seq<Candidate>, e: int)
    requires CountBelow(s, e) == 0
    ensures forall i :: 0 <= i < |s| ==> s[i].ent >= e
  {
    if s != [] {
      CountBelowZero(s[1..], e);
      assert forall i :: 1 <= i < |s| ==> s[i] == s[1..][i - 1];
    }
  }

  lemma {:induction false} CountBelowAll(s: seq<Candidate>, e: int)
    requires forall i :: 0 <= i < |s| ==> s[i].ent < e
    ensures CountBelow(s, e) == |s|
  {
    if s != [] {
      CountBelowAll(s[1..], e);
    }
  }

  lemma {:induction false} CountBelowInsert(x: Candidate, s: seq<Candidate>, e: int)
    requires SortedByEntropy(s)
    ensures CountBelow(Insert(x, s), e) == CountBelow([x] + s, e)
  {
    if s != [] && x.ent > s[0].ent {
      CountBelowInsert(x, s[1..], e);
      CountBelowCons(s[0], Insert(x, s[1..]), e);
      CountBelowCons(x, s[1..], e);
      CountBelowCons(x, s, e);
      assert s == [s[0]] + s[1..];
      CountBelowCons(s[0], s[1..], e);
    }
  }

  /** Sorting does not change how many candidates score below a given value. */
  lemma {:induction false} CountBelowSort(s: seq<Candidate>, e: int)
    ensures CountBelow(SortByEntropy(s), e) == CountBelow(s, e)
  {
    if s != [] {
      var rest := SortByEntropy(s[1..]);
      CountBelowInsert(s[0], rest, e);
      CountBelowCons(s[0], rest, e);
      CountBelowSort(s[1..], e);
      assert s == [s[0]] + s[1..];
      CountBelowCons(s[0], s[1..], e);
    }
  }

  /** In a sorted list at most n elements score strictly below the element at position n. */
  lemma RankInSortedBelow(s: seq<Candidate>, n: nat, e: int)
    requires SortedByEntropy(s) && n < |s| && e == s[n].ent
    ensures CountBelow(s, e) <= n
  {
    assert s == s[..n] + s[n..];
    CountBelowAppend(s[..n], s[n..], e);
    CountBelowNone(s[n..], e);
  }

  /** In a sorted list at least n + 1 elements score at most the score of the element at position n. */
  lemma RankInSortedAtMost(s: seq<Candidate>, n: nat, e: int)
    requires SortedByEntropy(s) && n < |s| && e == s[n].ent + 1
    ensures CountBelow(s, e) >= n + 1
  {
    assert s == s[..n + 1] + s[n + 1..];
    CountBelowAppend(s[..n + 1], s[n + 1..], e);
    CountBelowAll(s[..n + 1], e);
  }

  /** The generator eventually yields a rank below `len`. */
  predicate Terminates(draws: seq<nat>, len: nat) {
    exists i :: 0 <= i < |draws| && draws[i] < len
  }

  lemma TerminatesTail(draws: seq<nat>, len: nat)
    requires Terminates(draws, len) && draws[0] >= len
    ensures Terminates(draws[1..], len)
  {
    var i :| 0 <= i < |draws| && draws[i] < len;
    assert draws[1..][i - 1] == draws[i];
  }

  /** The position in the stream of the first draw below `len`. */
  function FirstFit(draws: seq<nat>, len: nat): (i: nat)
    requires Terminates(draws, len)
    ensures i < |draws| && draws[i] < len
    ensures forall j :: 0 <= j < i ==> draws[j] >= len
  {
    if draws[0] < len then 0
    else
      TerminatesTail(draws, len);
      1 + FirstFit(draws[1..], len)
  }

  /** The rank the rejection loop settles on: the first draw that is in range. */
  function Rank(draws: seq<nat>, len: nat): (n: nat)
    requires Terminates(draws, len)
    ensures n < len
  {
    draws[FirstFit(draws, len)]
  }

  /** The candidate at the drawn rank of the candidates sorted stably by score. */
  function SelectByRank(es: seq<Candidate>, draws: seq<nat>): (m: Candidate)
    requires Terminates(draws, |es|)
    ensures m in es
  {
    var sorted := SortByEntropy(es);
    var m := sorted[Rank(draws, |es|)];
    SortPermutes(es);
    assert m in multiset(sorted);
    m
  }

  lemma SortedRankBelow(s: seq<Candidate>, n: nat)
    requires n < |s|
    ensures CountBelow(s, SortByEntropy(s)[n].ent) <= n
  {
    var t := SortByEntropy(s);
    CountBelowSort(s, t[n].ent);
    RankInSortedBelow(t, n, t[n].ent);
  }

  lemma SortedRankAtMost(s: seq<Candidate>, n: nat, e: int)
    requires n < |s| && e == SortByEntropy(s)[n].ent + 1
    ensures CountBelow(s, e) >= n + 1
  {
    CountBelowSort(s, e);
    RankInSortedAtMost(SortByEntropy(s), n, e);
  }

  /**
   * The selected candidate has rank n among all candidates: at most n of them
   * score strictly below it and at least n + 1 score at most its score.
   */
  lemma SelectHasRank(es: seq<Candidate>, draws: seq<nat>)
    requires Terminates(draws, |es|)
    ensures CountBelow(es, SelectByRank(es, draws).ent) <= Rank(draws, |es|)
    ensures Rank(draws, |es|) < CountBelow(es, SelectByRank(es, draws).ent + 1)
  {
    var n := Rank(draws, |es|);
    assert SelectByRank(es, draws) == SortByEntropy(es)[n];
    SortedRankBelow(es, n);
    SortedRankAtMost(es, n, SelectByRank(es, draws).ent + 1);
  }

  /** At rank 0 the selected candidate scores lowest of all. */
  lemma SelectAtRankZero(es: seq<Candidate>, draws: seq<nat>)
    requires Terminates(draws, |es|) && Rank(draws, |es|) == 0
    ensures forall k :: 0 <= k < |es| ==> SelectByRank(es, draws).ent <= es[k].ent
  {
    SelectHasRank(es, draws);
    CountBelowZero(es, SelectByRank(es, draws).ent);
  }
}
