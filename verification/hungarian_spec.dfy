/** What the assignment solver promises: for a square cost matrix, a permutation of the columns whose
    total cost is minimal (or maximal). Also the counting facts about finite sets of indices that the
    solver's proof uses. */
module HungarianSpec {

  /** A cost matrix (`int[,]`), as rows. */
  type Matrix = seq<seq<int>>

  /** Every row has as many cells as there are rows. */
  predicate IsSquare(m: Matrix) {
    forall i :: 0 <= i < |m| ==> |m[i]| == |m|
  }

  /** `p` sends each of the `n` rows to its own column. */
  predicate IsPermutation(p: seq<int>, n: nat) {
    && |p| == n
    && (forall i :: 0 <= i < n ==> 0 <= p[i] < n)
    && (forall i, j :: 0 <= i < j < n ==> p[i] != p[j])
  }

  /** Column indices of `p` are all cells of `m`. */
  predicate InColumns(m: Matrix, p: seq<int>) {
    |p| <= |m| && forall i :: 0 <= i < |p| ==> 0 <= p[i] < |m[i]|
  }

  /** The total cost of giving row `i` column `p[i]`, over the first `|p|` rows. */
  function Cost(m: Matrix, p: seq<int>): int
    requires InColumns(m, p)
    decreases |p|
  {
    if p == [] then 0 else Cost(m, p[..|p| - 1]) + m[|p| - 1][p[|p| - 1]]
  }

  /** `ExtremumType`. */
  datatype Extremum = Min | Max

  /** `p` is a permutation and no permutation does better in the direction `e`. */
  ghost predicate Optimal(m: Matrix, p: seq<int>, e: Extremum)
    requires IsSquare(m)
  {
    && IsPermutation(p, |m|)
    && forall q :: IsPermutation(q, |m|) ==>
         if e == Min then Cost(m, p) <= Cost(m, q) else Cost(m, p) >= Cost(m, q)
  }

  /** Every cell negated (what `ExtremumType.Max` does to the matrix before reducing it). */
  function Negate(m: Matrix): (r: Matrix)
    ensures |r| == |m|
    ensures forall i :: 0 <= i < |m| ==> |r[i]| == |m[i]| && forall j :: 0 <= j < |m[i]| ==> r[i][j] == -m[i][j]
  {
    seq(|m|, i requires 0 <= i < |m| => seq(|m[i]|, j requires 0 <= j < |m[i]| => -m[i][j]))
  }

  lemma {:induction false} CostOfNegation(m: Matrix, p: seq<int>)
    requires InColumns(m, p)
    ensures InColumns(Negate(m), p)
    ensures Cost(Negate(m), p) == -Cost(m, p)
    decreases |p|
  {
    if p != [] {
      CostOfNegation(m, p[..|p| - 1]);
    }
  }

  /** Maximising a matrix is minimising its negation. */
  lemma MaxIsMinOfNegation(m: Matrix, p: seq<int>)
    requires IsSquare(m)
    ensures IsSquare(Negate(m))
    ensures Optimal(m, p, Max) <==> Optimal(Negate(m), p, Min)
  {
    forall q | IsPermutation(q, |m|)
      ensures Cost(Negate(m), q) == -Cost(m, q)
    {
      CostOfNegation(m, q);
    }
    if IsPermutation(p, |m|) {
      CostOfNegation(m, p);
    }
  }

  // ---------------------------------------------------------------------------------------------
  // Counting

  /** The indices `0..n-1` as a set. */
  function Range(n: nat): (r: set<int>)
    ensures forall j :: j in r <==> 0 <= j < n
  {
    if n == 0 then {} else Range(n - 1) + {n - 1}
  }

  lemma {:induction false} RangeCard(n: nat)
    ensures |Range(n)| == n
  {
    if n > 0 {
      RangeCard(n - 1);
    }
  }

  lemma SubsetCard<T>(a: set<T>, b: set<T>)
    requires a <= b
    ensures |a| <= |b|
  {
    assert b == a + (b - a);
  }

  lemma SubsetSameCard<T>(a: set<T>, b: set<T>)
    requires a <= b && |a| == |b|
    ensures a == b
  {
    if a != b {
      var x :| x in b && x !in a;
      SubsetCard(a, b - {x});
    }
  }

  /** The values of `p`. */
  function Image(p: seq<int>): (r: set<int>)
    ensures forall x :: x in r <==> x in p
  {
    set i | 0 <= i < |p| :: p[i]
  }

  predicate Distinct(p: seq<int>) {
    forall i, j :: 0 <= i < j < |p| ==> p[i] != p[j]
  }

  lemma {:induction false} DistinctImageCard(p: seq<int>)
    requires Distinct(p)
    ensures |Image(p)| == |p|
    decreases |p|
  {
    if p != [] {
      var q := p[..|p| - 1];
      DistinctImageCard(q);
      assert Image(p) == Image(q) + {p[|p| - 1]};
    }
  }

  /** A sequence of distinct indices below `n` has at most `n` elements. */
  lemma DistinctBelowBounded(p: seq<int>, n: nat)
    requires Distinct(p)
    requires forall i :: 0 <= i < |p| ==> 0 <= p[i] < n
    ensures |p| <= n
  {
    DistinctImageCard(p);
    RangeCard(n);
    SubsetCard(Image(p), Range(n));
  }

  /** `n` distinct indices below `n` are all of them. */
  lemma DistinctBelowOnto(p: seq<int>, n: nat)
    requires Distinct(p) && |p| == n
    requires forall i :: 0 <= i < |p| ==> 0 <= p[i] < n
    ensures forall j :: 0 <= j < n ==> j in p
  {
    DistinctImageCard(p);
    RangeCard(n);
    SubsetSameCard(Image(p), Range(n));
  }

  // ---------------------------------------------------------------------------------------------
  // Sums

  function Sum(v: seq<int>): int
    decreases |v|
  {
    if v == [] then 0 else Sum(v[..|v| - 1]) + v[|v| - 1]
  }

  /** `v[p[0]] + ... + v[p[|p|-1]]`. */
  function SumAt(v: seq<int>, p: seq<int>): int
    requires forall i :: 0 <= i < |p| ==> 0 <= p[i] < |v|
    decreases |p|
  {
    if p == [] then 0 else SumAt(v, p[..|p| - 1]) + v[p[|p| - 1]]
  }

  lemma {:induction false} SumAtUpdate(v: seq<int>, p: seq<int>, k: nat, x: int)
    requires forall i :: 0 <= i < |p| ==> 0 <= p[i] < |v|
    requires k < |p| && 0 <= x < |v|
    ensures SumAt(v, p[k := x]) == SumAt(v, p) - v[p[k]] + v[x]
    decreases |p|
  {
    var q := p[k := x];
    if k < |p| - 1 {
      assert q[..|q| - 1] == p[..|p| - 1][k := x];
      SumAtUpdate(v, p[..|p| - 1], k, x);
    } else {
      assert q[..|q| - 1] == p[..|p| - 1];
    }
  }

  lemma {:induction false} SumAtRestrict(v: seq<int>, k: nat, p: seq<int>)
    requires k <= |v|
    requires forall i :: 0 <= i < |p| ==> 0 <= p[i] < k
    ensures SumAt(v[..k], p) == SumAt(v, p)
    decreases |p|
  {
    if p != [] {
      SumAtRestrict(v, k, p[..|p| - 1]);
    }
  }

  /** Summing over a permutation of the indices is summing everything. */
  lemma {:induction false} SumAtPermutation(v: seq<int>, p: seq<int>)
    requires IsPermutation(p, |v|)
    ensures SumAt(v, p) == Sum(v)
    decreases |v|
  {
    var n := |v|;
    if n > 0 {
      DistinctBelowOnto(p, n);
      assert n - 1 in p;
      var k :| 0 <= k < n && p[k] == n - 1;
      var q := DropLast(p, k);
      SumAtPermutation(v[..n - 1], q);
      SumAtRestrict(v, n - 1, q);
      SumAtDropLast(v, p, k);
    }
  }

  lemma SumAtDropLast(v: seq<int>, p: seq<int>, k: nat)
    requires IsPermutation(p, |v|) && k < |p| && p[k] == |p| - 1
    ensures SumAt(v, p) == SumAt(v, DropLast(p, k)) + v[|v| - 1]
  {
    var n := |v|;
    var front := p[..n - 1];
    assert p[n - 1] < n;
    assert SumAt(v, p) == SumAt(v, front) + v[p[n - 1]];
    if k < n - 1 {
      assert front[k] == n - 1;
      SumAtUpdate(v, front, k, p[n - 1]);
      assert DropLast(p, k) == front[k := p[n - 1]];
    } else {
      assert DropLast(p, k) == front;
    }
  }

  /** The permutation of `n - 1` indices left when the row `k` holding `n - 1` takes over the last row's
      column and the last row is dropped. */
  function DropLast(p: seq<int>, k: nat): (q: seq<int>)
    requires IsPermutation(p, |p|) && k < |p| && p[k] == |p| - 1
    ensures IsPermutation(q, |p| - 1)
    ensures k < |p| - 1 ==> q == p[..|p| - 1][k := p[|p| - 1]]
    ensures k == |p| - 1 ==> q == p[..|p| - 1]
  {
    var n := |p|;
    if k < n - 1 then p[..n - 1][k := p[n - 1]] else p[..n - 1]
  }

  lemma {:induction false} CostAsSums(c0: Matrix, c: Matrix, u: seq<int>, v: seq<int>, p: seq<int>)
    requires IsSquare(c0) && IsSquare(c) && |c| == |c0| == |u| == |v|
    requires forall i, j :: 0 <= i < |c| && 0 <= j < |c| ==> c0[i][j] == c[i][j] + u[i] + v[j]
    requires InColumns(c, p)
    ensures InColumns(c0, p)
    ensures Cost(c0, p) == Cost(c, p) + Sum(u[..|p|]) + SumAt(v, p)
    decreases |p|
  {
    if p != [] {
      var k := |p| - 1;
      CostAsSums(c0, c, u, v, p[..k]);
      assert u[..|p|][..k] == u[..k];
    }
  }

  /** Costs that differ by a row potential `u` and a column potential `v` differ by the same amount
      on every permutation. */
  lemma CostWithPotentials(c0: Matrix, c: Matrix, u: seq<int>, v: seq<int>, p: seq<int>)
    requires IsSquare(c0) && IsSquare(c) && |c| == |c0| == |u| == |v|
    requires forall i, j :: 0 <= i < |c| && 0 <= j < |c| ==> c0[i][j] == c[i][j] + u[i] + v[j]
    requires IsPermutation(p, |c|)
    ensures Cost(c0, p) == Cost(c, p) + Sum(u) + Sum(v)
  {
    CostAsSums(c0, c, u, v, p);
    assert u[..|p|] == u;
    SumAtPermutation(v, p);
  }

  lemma {:induction false} CostNonNegative(c: Matrix, p: seq<int>)
    requires InColumns(c, p)
    requires forall i, j :: 0 <= i < |c| && 0 <= j < |c[i]| ==> c[i][j] >= 0
    ensures Cost(c, p) >= 0
    decreases |p|
  {
    if p != [] {
      CostNonNegative(c, p[..|p| - 1]);
    }
  }

  lemma {:induction false} CostZero(c: Matrix, p: seq<int>)
    requires InColumns(c, p)
    requires forall i :: 0 <= i < |p| ==> c[i][p[i]] == 0
    ensures Cost(c, p) == 0
    decreases |p|
  {
    if p != [] {
      CostZero(c, p[..|p| - 1]);
    }
  }

  /** The optimality certificate: a permutation lying on zeros of a non-negative matrix that differs from
      `c0` by potentials is a minimum-cost permutation of `c0`. */
  lemma ZeroPermutationIsOptimal(c0: Matrix, c: Matrix, u: seq<int>, v: seq<int>, p: seq<int>)
    requires IsSquare(c0) && IsSquare(c) && |c| == |c0| == |u| == |v|
    requires forall i, j :: 0 <= i < |c| && 0 <= j < |c| ==> c0[i][j] == c[i][j] + u[i] + v[j]
    requires forall i, j :: 0 <= i < |c| && 0 <= j < |c[i]| ==> c[i][j] >= 0
    requires IsPermutation(p, |c|)
    requires forall i :: 0 <= i < |p| ==> c[i][p[i]] == 0
    ensures Optimal(c0, p, Min)
  {
    CostWithPotentials(c0, c, u, v, p);
    CostZero(c, p);
    forall q | IsPermutation(q, |c0|)
      ensures Cost(c0, p) <= Cost(c0, q)
    {
      CostWithPotentials(c0, c, u, v, q);
      CostNonNegative(c, q);
    }
  }
}
