/** Top-K selection over a vector of similarity scores: the model of
    `sims.argsort()[::-1][:TOP_K]`. Scores are taken as given values; only
    their order matters. Ties may come out in any order. */
module Ranking {
  import opened Text

  /** Every index points into a score vector of length `n`. */
  predicate InRange(n: nat, idx: seq<nat>) {
    forall j :: 0 <= j < |idx| ==> idx[j] < n
  }

  predicate Distinct(idx: seq<nat>) {
    forall a, b :: 0 <= a < b < |idx| ==> idx[a] != idx[b]
  }

  /** The indices' scores are non-increasing. */
  predicate Descending(sims: seq<real>, idx: seq<nat>)
    requires InRange(|sims|, idx)
  {
    forall a, b :: 0 <= a < b < |idx| ==> sims[idx[a]] >= sims[idx[b]]
  }

  /** `idx` is a valid answer to "the `k` best indices of `sims`, best first":
      `min(k, |sims|)` distinct valid indices in non-increasing score order,
      and no index left out scores above any index taken. */
  predicate IsTopK(sims: seq<real>, k: nat, idx: seq<nat>) {
    && |idx| == Min(k, |sims|)
    && InRange(|sims|, idx)
    && Distinct(idx)
    && Descending(sims, idx)
    && forall i, j :: 0 <= i < |sims| && i !in idx && 0 <= j < |idx| ==> sims[i] <= sims[idx[j]]
  }

  /** `[0, 1, ..., n-1]`, the positions `argsort` permutes. */
  function Indices(n: nat): (r: seq<nat>)
    ensures |r| == n && forall j :: 0 <= j < n ==> r[j] == j
  {
    if n == 0 then [] else Indices(n - 1) + [n - 1]
  }

  /** Inserts index `i` into an index list kept in descending score order. */
  function Insert(sims: seq<real>, i: nat, xs: seq<nat>): (r: seq<nat>)
    requires i < |sims| && InRange(|sims|, xs) && Descending(sims, xs)
    ensures InRange(|sims|, r) && Descending(sims, r)
    ensures multiset(r) == multiset(xs) + multiset{i}
    ensures Distinct(xs) && i !in xs ==> Distinct(r)
  {
    if xs == [] then [i]
    else if sims[i] >= sims[xs[0]] then [i] + xs
    else
      var rest := Insert(sims, i, xs[1..]);
      InsertStep(sims, i, xs, rest);
      [xs[0]] + rest
  }

  /** The step case of `Insert`: `xs[0]` outscores `i` and the rest of `xs`,
      so it can stay in front of the insertion into the rest. */
  lemma InsertStep(sims: seq<real>, i: nat, xs: seq<nat>, rest: seq<nat>)
    requires i < |sims| && InRange(|sims|, xs) && Descending(sims, xs)
    requires xs != [] && sims[i] < sims[xs[0]]
    requires InRange(|sims|, rest) && Descending(sims, rest)
    requires multiset(rest) == multiset(xs[1..]) + multiset{i}
    requires Distinct(xs[1..]) && i !in xs[1..] ==> Distinct(rest)
    ensures InRange(|sims|, [xs[0]] + rest) && Descending(sims, [xs[0]] + rest)
    ensures multiset([xs[0]] + rest) == multiset(xs) + multiset{i}
    ensures Distinct(xs) && i !in xs ==> Distinct([xs[0]] + rest)
  {
    SplitHead(xs);
    HeadAboveInsertion(sims, i, xs, rest);
    DescendingCons(sims, xs[0], rest);
    if Distinct(xs) && i !in xs {
      assert xs[0] !in multiset(rest);
      DistinctCons(xs[0], rest);
    }
  }

  /** `xs[0]` scores at least as much as every element of the insertion into the tail. */
  lemma HeadAboveInsertion(sims: seq<real>, i: nat, xs: seq<nat>, rest: seq<nat>)
    requires i < |sims| && InRange(|sims|, xs) && Descending(sims, xs)
    requires xs != [] && sims[i] < sims[xs[0]]
    requires InRange(|sims|, rest)
    requires multiset(rest) == multiset(xs[1..]) + multiset{i}
    ensures forall b :: 0 <= b < |rest| ==> sims[xs[0]] >= sims[rest[b]]
  {
    forall b | 0 <= b < |rest|
      ensures sims[xs[0]] >= sims[rest[b]]
    {
      assert rest[b] in multiset(rest);
      if rest[b] != i {
        assert rest[b] in multiset(xs[1..]);
        var q :| 0 <= q < |xs[1..]| && xs[1..][q] == rest[b];
        assert xs[q + 1] == rest[b];
      }
    }
  }

  lemma DescendingCons(sims: seq<real>, h: nat, rest: seq<nat>)
    requires h < |sims| && InRange(|sims|, rest) && Descending(sims, rest)
    requires forall b :: 0 <= b < |rest| ==> sims[h] >= sims[rest[b]]
    ensures InRange(|sims|, [h] + rest) && Descending(sims, [h] + rest)
  {
    var r := [h] + rest;
    forall a, b | 0 <= a < b < |r|
      ensures sims[r[a]] >= sims[r[b]]
    {
      assert r[b] == rest[b - 1];
      if a > 0 {
        assert r[a] == rest[a - 1];
      }
    }
  }

  lemma DistinctCons(h: nat, rest: seq<nat>)
    requires Distinct(rest) && h !in rest
    ensures Distinct([h] + rest)
  {
    var r := [h] + rest;
    forall a, b | 0 <= a < b < |r|
      ensures r[a] != r[b]
    {
      assert r[b] == rest[b - 1];
      if a > 0 {
        assert r[a] == rest[a - 1];
      }
    }
  }

  /** Insertion sort of an index list by descending score. */
  function SortByScore(sims: seq<real>, xs: seq<nat>): (r: seq<nat>)
    requires InRange(|sims|, xs)
    ensures InRange(|sims|, r) && Descending(sims, r)
    ensures multiset(r) == multiset(xs)
    ensures Distinct(xs) ==> Distinct(r)
  {
    if xs == [] then []
    else
      var rest := SortByScore(sims, xs[1..]);
      SplitHead(xs);
      Insert(sims, xs[0], rest)
  }

  /** `xs` is its head followed by its tail; a distinct list has a distinct
      tail that does not hold the head. */
  lemma SplitHead(xs: seq<nat>)
    requires xs != []
    ensures multiset(xs) == multiset(xs[1..]) + multiset{xs[0]}
    ensures Distinct(xs) ==> Distinct(xs[1..]) && xs[0] !in multiset(xs[1..])
  {
    assert xs == [xs[0]] + xs[1..];
  }

  /** The `k` best indices of `sims`, best first. */
  function TopK(sims: seq<real>, k: nat): (idx: seq<nat>)
    ensures IsTopK(sims, k, idx)
  {
    var n := |sims|;
    var all := Indices(n);
    var sorted := SortByScore(sims, all);
    assert |sorted| == n by {
      assert |multiset(sorted)| == |multiset(all)|;
    }
    PrefixOfSortedPermutation(sims, k, sorted);
    sorted[..Min(k, n)]
  }

  /** A prefix of a descending permutation of all indices is a top-K answer.
      `Distinct(sorted)` follows from the multiset equation; it is required as
      well because `SortByScore` already supplies it, which spares the proof a
      counting argument. */
  lemma PrefixOfSortedPermutation(sims: seq<real>, k: nat, sorted: seq<nat>)
    requires |sorted| == |sims|
    requires InRange(|sims|, sorted) && Descending(sims, sorted) && Distinct(sorted)
    requires multiset(sorted) == multiset(Indices(|sims|))
    ensures IsTopK(sims, k, sorted[..Min(k, |sims|)])
  {
    PrefixKeepsOrder(sims, sorted, Min(k, |sims|));
    LeftOutScoresBelow(sims, sorted, Min(k, |sims|));
  }

  /** A prefix of a descending list of distinct valid indices is one too. */
  lemma PrefixKeepsOrder(sims: seq<real>, sorted: seq<nat>, m: nat)
    requires m <= |sorted|
    requires InRange(|sims|, sorted) && Descending(sims, sorted) && Distinct(sorted)
    ensures InRange(|sims|, sorted[..m]) && Descending(sims, sorted[..m]) && Distinct(sorted[..m])
  {
    assert forall j :: 0 <= j < m ==> sorted[..m][j] == sorted[j];
  }

  /** An index outside a prefix of a descending permutation of all indices
      scores no more than anything in the prefix. */
  lemma LeftOutScoresBelow(sims: seq<real>, sorted: seq<nat>, m: nat)
    requires |sorted| == |sims| && m <= |sims|
    requires InRange(|sims|, sorted) && Descending(sims, sorted)
    requires multiset(sorted) == multiset(Indices(|sims|))
    ensures forall i, j :: 0 <= i < |sims| && i !in sorted[..m] && 0 <= j < m ==>
              sims[i] <= sims[sorted[..m][j]]
  {
    forall i, j | 0 <= i < |sims| && i !in sorted[..m] && 0 <= j < m
      ensures sims[i] <= sims[sorted[..m][j]]
    {
      LeftOutScoresBelowOne(sims, sorted, m, i, j);
    }
  }

  lemma LeftOutScoresBelowOne(sims: seq<real>, sorted: seq<nat>, m: nat, i: nat, j: nat)
    requires |sorted| == |sims| && m <= |sims|
    requires InRange(|sims|, sorted) && Descending(sims, sorted)
    requires multiset(sorted) == multiset(Indices(|sims|))
    requires i < |sims| && i !in sorted[..m] && j < m
    ensures sims[i] <= sims[sorted[..m][j]]
  {
    var p := PositionOf(sorted, |sims|, i);
    InPrefix(sorted, m, p);
    assert j < p;
    assert sims[sorted[j]] >= sims[sorted[p]];
    assert sorted[..m][j] == sorted[j];
  }

  lemma InPrefix(s: seq<nat>, m: nat, p: nat)
    requires m <= |s| && p < |s|
    ensures p < m ==> s[p] in s[..m]
  {
    if p < m {
      assert s[..m][p] == s[p];
    }
  }

  /** Every index below `n` occurs in a permutation of `Indices(n)`. */
  lemma PositionOf(sorted: seq<nat>, n: nat, i: nat) returns (p: nat)
    requires multiset(sorted) == multiset(Indices(n)) && i < n
    ensures p < |sorted| && sorted[p] == i
  {
    assert Indices(n)[i] == i;
    assert i in multiset(Indices(n));
    assert i in multiset(sorted);
    p :| 0 <= p < |sorted| && sorted[p] == i;
  }

  /** Any two top-K answers give the same scores, position by position:
      the answer is unique up to the order of tied indices. */
  lemma TopKScoresUnique(sims: seq<real>, k: nat, a: seq<nat>, b: seq<nat>)
    requires IsTopK(sims, k, a) && IsTopK(sims, k, b)
    ensures forall j :: 0 <= j < |a| ==> sims[a[j]] == sims[b[j]]
  {
    forall j | 0 <= j < |a|
      ensures sims[a[j]] == sims[b[j]]
    {
      if sims[a[j]] > sims[b[j]] {
        ScoreNotAbove(sims, k, a, b, j);
      } else if sims[a[j]] < sims[b[j]] {
        ScoreNotAbove(sims, k, b, a, j);
      }
    }
  }

  /** Position `j` of one answer cannot score above position `j` of another. */
  lemma ScoreNotAbove(sims: seq<real>, k: nat, a: seq<nat>, b: seq<nat>, j: nat)
    requires IsTopK(sims, k, a) && IsTopK(sims, k, b)
    requires j < |a|
    ensures sims[a[j]] <= sims[b[j]]
  {
    FewAboveSelected(sims, k, b, j);
    ManyAboveBelowSelected(sims, k, a, j, sims[b[j]]);
  }

  /** The indices scoring strictly above `v`. */
  function Above(sims: seq<real>, v: real): set<nat> {
    set i: nat | i < |sims| && sims[i] > v
  }

  /** Only indices taken before position `j` can score above the `j`-th one. */
  lemma FewAboveSelected(sims: seq<real>, k: nat, b: seq<nat>, j: nat)
    requires IsTopK(sims, k, b) && j < |b|
    ensures |Above(sims, sims[b[j]])| <= j
  {
    var v := sims[b[j]];
    forall x | x in Above(sims, v)
      ensures x in Elems(b[..j])
    {
      assert x in b;
      var q :| 0 <= q < |b| && b[q] == x;
      assert q < j;
      assert b[..j][q] == x;
    }
    SubsetSize(Above(sims, v), Elems(b[..j]));
    SetSizeBound(b[..j]);
  }

  /** Below the `j`-th score of an answer lie at least `j + 1` higher scores. */
  lemma ManyAboveBelowSelected(sims: seq<real>, k: nat, a: seq<nat>, j: nat, v: real)
    requires IsTopK(sims, k, a) && j < |a|
    ensures v < sims[a[j]] ==> |Above(sims, v)| >= j + 1
  {
    if v < sims[a[j]] {
      var high := a[..j + 1];
      forall x | x in Elems(high)
        ensures x in Above(sims, v)
      {
        var p :| 0 <= p <= j && a[p] == x;
      }
      assert Distinct(high);
      DistinctSetSize(high);
      SubsetSize(Elems(high), Above(sims, v));
    }
  }

  function Elems(s: seq<nat>): set<nat> {
    set x | x in s
  }

  lemma {:induction false} DistinctSetSize(s: seq<nat>)
    requires Distinct(s)
    ensures |Elems(s)| == |s|
  {
    if s != [] {
      var t := s[..|s| - 1];
      var last := s[|s| - 1];
      assert s == t + [last];
      DistinctSetSize(t);
      assert Elems(s) == Elems(t) + {last};
      assert last !in Elems(t);
    }
  }

  lemma {:induction false} SetSizeBound(s: seq<nat>)
    ensures |Elems(s)| <= |s|
  {
    if s != [] {
      var t := s[..|s| - 1];
      assert s == t + [s[|s| - 1]];
      SetSizeBound(t);
      assert Elems(s) == Elems(t) + {s[|s| - 1]};
    }
  }

  lemma SubsetSize(a: set<nat>, b: set<nat>)
    requires a <= b
    ensures |a| <= |b|
  {
    assert b == a + (b - a);
  }
}
