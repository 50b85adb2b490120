/** The helpers and steps 1 and 4 of the assignment solver (`HungarianAlgorithm`). The matrices are
    values: each step returns the state it leaves behind. */
module HungarianSteps {
  import opened Wrappers
  import opened HungarianSpec
  import opened HungarianState

  /** `FindStarInRow`: the first starred column of `row`, or -1. */
  method FindStarInRow(masks: Masks, n: nat, row: int) returns (col: int)
    requires MasksShaped(masks, n) && 0 <= row < n
    ensures -1 <= col < n
    ensures col == -1 <==> !RowHasStar(masks, n, row)
    ensures col != -1 ==> masks[row][col] == Starred && forall j :: 0 <= j < col ==> masks[row][j] != Starred
  {
    var j := 0;
    while j < n
      invariant 0 <= j <= n
      invariant forall k :: 0 <= k < j ==> masks[row][k] != Starred
    {
      if masks[row][j] == Starred {
        return j;
      }
      j := j + 1;
    }
    return -1;
  }

  /** `FindStarInColumn`: the first starred row of `col`, or -1. */
  method FindStarInColumn(masks: Masks, n: nat, col: int) returns (row: int)
    requires MasksShaped(masks, n) && 0 <= col < n
    ensures -1 <= row < n
    ensures row == -1 <==> !ColHasStar(masks, n, col)
    ensures row != -1 ==> masks[row][col] == Starred && forall i :: 0 <= i < row ==> masks[i][col] != Starred
  {
    var i := 0;
    while i < n
      invariant 0 <= i <= n
      invariant forall k :: 0 <= k < i ==> masks[k][col] != Starred
    {
      if masks[i][col] == Starred {
        return i;
      }
      i := i + 1;
    }
    return -1;
  }

  /** `FindPrimeInRow`: the first primed column of `row`, or -1. */
  method FindPrimeInRow(masks: Masks, n: nat, row: int) returns (col: int)
    requires MasksShaped(masks, n) && 0 <= row < n
    ensures -1 <= col < n
    ensures col == -1 <==> !RowHasPrime(masks, n, row)
    ensures col != -1 ==> masks[row][col] == Primed && forall j :: 0 <= j < col ==> masks[row][j] != Primed
  {
    var j := 0;
    while j < n
      invariant 0 <= j <= n
      invariant forall k :: 0 <= k < j ==> masks[row][k] != Primed
    {
      if masks[row][j] == Primed {
        return j;
      }
      j := j + 1;
    }
    return -1;
  }

  /** `FindZero`: the first uncovered zero in row-major order, or (-1, -1). */
  method FindZero(s: State, n: nat) returns (loc: Location)
    requires Shaped(s, n)
    ensures loc.row == -1 <==> !UncoveredZero(s, n)
    ensures loc.row == -1 ==> loc.column == -1
    ensures loc.row != -1 ==>
              && 0 <= loc.row < n && 0 <= loc.column < n
              && s.costs[loc.row][loc.column] == 0
              && !s.rowsCovered[loc.row] && !s.colsCovered[loc.column]
    ensures loc.row != -1 ==>
              forall a, b :: 0 <= a < n && 0 <= b < n && (a < loc.row || (a == loc.row && b < loc.column)) ==>
                !(s.costs[a][b] == 0 && !s.rowsCovered[a] && !s.colsCovered[b])
  {
    var i := 0;
    while i < n
      invariant 0 <= i <= n
      invariant forall a, b :: 0 <= a < i && 0 <= b < n ==>
                  !(s.costs[a][b] == 0 && !s.rowsCovered[a] && !s.colsCovered[b])
    {
      var j := 0;
      while j < n
        invariant 0 <= j <= n
        invariant forall a, b :: 0 <= a < i && 0 <= b < n ==>
                    !(s.costs[a][b] == 0 && !s.rowsCovered[a] && !s.colsCovered[b])
        invariant forall b :: 0 <= b < j ==> !(s.costs[i][b] == 0 && !s.rowsCovered[i] && !s.colsCovered[b])
      {
        if s.costs[i][j] == 0 && !s.rowsCovered[i] && !s.colsCovered[j] {
          return Location(i, j);
        }
        j := j + 1;
      }
      i := i + 1;
    }
    return Location(-1, -1);
  }

  /** An uncovered cell exists. */
  predicate UncoveredCell(s: State, n: nat)
    requires Shaped(s, n)
  {
    exists i, j :: 0 <= i < n && 0 <= j < n && !s.rowsCovered[i] && !s.colsCovered[j]
  }

  /** `Math.Min` against the running minimum; `None` stands for the initial `int.MaxValue`. */
  function MinOf(acc: Option<int>, x: int): (r: int)
    ensures r <= x && (acc.Some? ==> r <= acc.value)
    ensures r == x || (acc.Some? && r == acc.value)
  {
    if acc.Some? && acc.value < x then acc.value else x
  }

  /** `FindMinimum`: the smallest uncovered cost; `None` when every cell is covered. */
  method FindMinimum(s: State, n: nat) returns (minValue: Option<int>)
    requires Shaped(s, n)
    ensures minValue.None? <==> !UncoveredCell(s, n)
    ensures minValue.Some? ==>
              && (forall i, j :: 0 <= i < n && 0 <= j < n && !s.rowsCovered[i] && !s.colsCovered[j] ==>
                    minValue.value <= s.costs[i][j])
              && exists i, j :: 0 <= i < n && 0 <= j < n && !s.rowsCovered[i] && !s.colsCovered[j] &&
                    minValue.value == s.costs[i][j]
  {
    minValue := None;
    var i := 0;
    while i < n
      invariant 0 <= i <= n
      invariant minValue.None? <==> forall a, b :: 0 <= a < i && 0 <= b < n ==> s.rowsCovered[a] || s.colsCovered[b]
      invariant minValue.Some? ==>
                  && (forall a, b :: 0 <= a < i && 0 <= b < n && !s.rowsCovered[a] && !s.colsCovered[b] ==>
                        minValue.value <= s.costs[a][b])
                  && exists a, b :: 0 <= a < i && 0 <= b < n && !s.rowsCovered[a] && !s.colsCovered[b] &&
                        minValue.value == s.costs[a][b]
    {
      var j := 0;
      while j < n
        invariant 0 <= j <= n
        invariant minValue.None? <==>
                    (forall a, b :: 0 <= a < i && 0 <= b < n ==> s.rowsCovered[a] || s.colsCovered[b])
                    && (forall b :: 0 <= b < j ==> s.rowsCovered[i] || s.colsCovered[b])
        invariant minValue.Some? ==>
                    && (forall a, b :: 0 <= a < i && 0 <= b < n && !s.rowsCovered[a] && !s.colsCovered[b] ==>
                          minValue.value <= s.costs[a][b])
                    && (forall b :: 0 <= b < j && !s.rowsCovered[i] && !s.colsCovered[b] ==> minValue.value <= s.costs[i][b])
                    && exists a, b :: 0 <= a <= i && 0 <= b < n && !s.rowsCovered[a] && !s.colsCovered[b] &&
                          minValue.value == s.costs[a][b]
      {
        if !s.rowsCovered[i] && !s.colsCovered[j] {
          minValue := Some(MinOf(minValue, s.costs[i][j]));
        }
        j := j + 1;
      }
      i := i + 1;
    }
  }

  /** `ClearCovers`: nothing covered. */
  method ClearCovers(s: State, n: nat) returns (r: State)
    requires Shaped(s, n)
    ensures Shaped(r, n) && r.costs == s.costs && r.masks == s.masks
    ensures forall i :: 0 <= i < n ==> !r.rowsCovered[i]
    ensures forall j :: 0 <= j < n ==> !r.colsCovered[j]
  {
    var rows := s.rowsCovered;
    var i := 0;
    while i < n
      invariant 0 <= i <= n && |rows| == n
      invariant forall k :: 0 <= k < i ==> !rows[k]
    {
      rows := rows[i := false];
      i := i + 1;
    }
    var cols := s.colsCovered;
    var j := 0;
    while j < n
      invariant 0 <= j <= n && |cols| == n
      invariant forall k :: 0 <= k < j ==> !cols[k]
    {
      cols := cols[j := false];
      j := j + 1;
    }
    r := State(s.costs, s.masks, rows, cols);
  }

  /** `ClearPrimes`: every prime becomes unmarked; stars stay. */
  method ClearPrimes(masks: Masks, n: nat) returns (r: Masks)
    requires MasksShaped(masks, n)
    ensures MasksShaped(r, n)
    ensures forall i, j :: 0 <= i < n && 0 <= j < n ==>
              r[i][j] == if masks[i][j] == Primed then Unmarked else masks[i][j]
  {
    r := masks;
    var i := 0;
    while i < n
      invariant 0 <= i <= n && MasksShaped(r, n)
      invariant forall a, b :: 0 <= a < n && 0 <= b < n ==>
                  r[a][b] == if a < i && masks[a][b] == Primed then Unmarked else masks[a][b]
    {
      var row := r[i];
      var j := 0;
      while j < n
        invariant 0 <= j <= n && |row| == n
        invariant forall b :: 0 <= b < n ==> row[b] == if b < j && masks[i][b] == Primed then Unmarked else masks[i][b]
      {
        if row[j] == Primed {
          row := row[j := Unmarked];
        }
        j := j + 1;
      }
      r := r[i := row];
      i := i + 1;
    }
  }

  /** No location occurs twice. */
  predicate DistinctLocations(path: seq<Location>) {
    forall x, y :: 0 <= x < y < |path| ==> path[x] != path[y]
  }

  /** `ConvertPath`: each path cell flipped once (stars unstarred, primes starred). */
  method ConvertPath(masks: Masks, n: nat, path: seq<Location>) returns (r: Masks)
    requires MasksShaped(masks, n)
    requires forall x :: 0 <= x < |path| ==> 0 <= path[x].row < n && 0 <= path[x].column < n
    requires DistinctLocations(path)
    ensures r == FlipPath(masks, n, path)
  {
    r := masks;
    var k := 0;
    while k < |path|
      invariant 0 <= k <= |path| && MasksShaped(r, n)
      invariant forall i, j :: 0 <= i < n && 0 <= j < n ==>
                  r[i][j] == if Location(i, j) in path[..k] then Flip(masks[i][j]) else masks[i][j]
    {
      var loc := path[k];
      assert loc !in path[..k];
      r := r[loc.row := r[loc.row][loc.column := Flip(r[loc.row][loc.column])]];
      assert path[..k + 1] == path[..k] + [loc];
      k := k + 1;
    }
    assert path[..k] == path;
    var f := FlipPath(masks, n, path);
    forall i | 0 <= i < n
      ensures r[i] == f[i]
    {
      assert forall j :: 0 <= j < n ==> r[i][j] == f[i][j];
    }
  }

  /** The columns marked covered among the first `k`. */
  function CoveredBelow(cols: seq<bool>, k: nat): (r: set<int>)
    requires k <= |cols|
    ensures forall j :: j in r <==> 0 <= j < k && cols[j]
  {
    if k == 0 then {} else CoveredBelow(cols, k - 1) + (if cols[k - 1] then {k - 1} else {})
  }

  lemma {:induction false} CoveredBelowCard(cols: seq<bool>, k: nat)
    requires k < |cols|
    ensures |CoveredBelow(cols, k + 1)| == |CoveredBelow(cols, k)| + (if cols[k] then 1 else 0)
  {
    assert k !in CoveredBelow(cols, k);
  }

  /** The counting loop of `RunStep1`: how many columns are covered. */
  method CountCovered(cols: seq<bool>) returns (count: int)
    ensures count == |CoveredBelow(cols, |cols|)|
  {
    count := 0;
    var j := 0;
    while j < |cols|
      invariant 0 <= j <= |cols|
      invariant count == |CoveredBelow(cols, j)|
    {
      CoveredBelowCard(cols, j);
      if cols[j] {
        count := count + 1;
      }
      j := j + 1;
    }
  }

  /** A star in column `j` among the first `k` rows. */
  ghost predicate StarAbove(m: Masks, n: nat, k: int, j: int)
    requires MasksShaped(m, n) && 0 <= k <= n && 0 <= j < n
  {
    exists a :: 0 <= a < k && m[a][j] == Starred
  }

  lemma StarAboveNext(m: Masks, n: nat, k: int, j: int)
    requires MasksShaped(m, n) && 0 <= k < n && 0 <= j < n
    ensures StarAbove(m, n, k + 1, j) <==> StarAbove(m, n, k, j) || m[k][j] == Starred
  {
    if StarAbove(m, n, k + 1, j) && m[k][j] != Starred {
      var a :| 0 <= a < k + 1 && m[a][j] == Starred;
      assert a < k;
    }
  }

  /** The inner loop of `RunStep1` on row `i`: covers the column of every star in the row. */
  method CoverRowStars(m: Masks, n: nat, cols: seq<bool>, i: int) returns (cols': seq<bool>)
    requires MasksShaped(m, n) && |cols| == n && 0 <= i < n
    ensures |cols'| == n
    ensures forall b :: 0 <= b < n ==> (cols'[b] <==> cols[b] || m[i][b] == Starred)
  {
    cols' := cols;
    var j := 0;
    while j < n
      invariant 0 <= j <= n && |cols'| == n
      invariant forall b :: 0 <= b < n ==> (cols'[b] <==> cols[b] || (b < j && m[i][b] == Starred))
    {
      if m[i][j] == Starred {
        cols' := cols'[j := true];
      }
      j := j + 1;
    }
  }

  /** `RunStep1`: covers every starred column and stops (-1) once there are as many as rows. */
  method RunStep1(s: State, n: nat) returns (r: State, next: int)
    requires Shaped(s, n) && Step1Ready(s, n)
    ensures Shaped(r, n) && r.costs == s.costs && r.masks == s.masks && r.rowsCovered == s.rowsCovered
    ensures forall j :: 0 <= j < n ==> (r.colsCovered[j] <==> ColHasStar(s.masks, n, j))
    ensures next == -1 || next == 2
    ensures next == -1 <==> |StarCols(s.masks, n)| == n
  {
    var cols := s.colsCovered;
    var i := 0;
    while i < n
      invariant 0 <= i <= n && |cols| == n
      invariant forall j :: 0 <= j < n ==> (cols[j] <==> StarAbove(s.masks, n, i, j))
    {
      cols := CoverRowStars(s.masks, n, cols, i);
      forall j | 0 <= j < n
        ensures cols[j] <==> StarAbove(s.masks, n, i + 1, j)
      {
        StarAboveNext(s.masks, n, i, j);
      }
      i := i + 1;
    }
    var count := CountCovered(cols);
    assert CoveredBelow(cols, n) == StarCols(s.masks, n);
    r := s.(colsCovered := cols);
    if count == n {
      return r, -1;
    }
    return r, 2;
  }

  /** The inner loop of `RunStep4` on one row. */
  method AdjustRow(row: seq<int>, rowCovered: bool, colsCovered: seq<bool>, min: int) returns (r: seq<int>)
    requires |row| == |colsCovered|
    ensures |r| == |row|
    ensures forall b :: 0 <= b < |row| ==>
              r[b] == row[b] + (if rowCovered then min else 0) - (if !colsCovered[b] then min else 0)
  {
    r := row;
    var j := 0;
    while j < |row|
      invariant 0 <= j <= |row| && |r| == |row|
      invariant forall b :: 0 <= b < |row| ==>
                  r[b] == if b < j then row[b] + (if rowCovered then min else 0) - (if !colsCovered[b] then min else 0)
                          else row[b]
    {
      if rowCovered {
        r := r[j := r[j] + min];
      }
      if !colsCovered[j] {
        r := r[j := r[j] - min];
      }
      j := j + 1;
    }
  }

  /** The adjusted costs `r` of step 4, in terms of the costs `s` before it. */
  predicate Step4Costs(s: State, r: State, minValue: int, n: nat)
    requires Shaped(s, n) && Shaped(r, n)
  {
    forall i, j :: 0 <= i < n && 0 <= j < n ==>
      r.costs[i][j] == s.costs[i][j] + (if s.rowsCovered[i] then minValue else 0)
                                      - (if !s.colsCovered[j] then minValue else 0)
  }

  /** The smallest uncovered cost is positive when no uncovered zero exists, and it becomes an uncovered zero. */
  lemma Step4MinimumPositive(s: State, r: State, minValue: int, n: nat)
    requires Shaped(s, n) && Shaped(r, n) && NonNegative(s.costs, n) && !UncoveredZero(s, n)
    requires r.rowsCovered == s.rowsCovered && r.colsCovered == s.colsCovered
    requires exists i, j :: 0 <= i < n && 0 <= j < n && !s.rowsCovered[i] && !s.colsCovered[j] && minValue == s.costs[i][j]
    requires Step4Costs(s, r, minValue, n)
    ensures minValue > 0
    ensures UncoveredZero(r, n)
  {
    var zi, zj :| 0 <= zi < n && 0 <= zj < n && !s.rowsCovered[zi] && !s.colsCovered[zj] && minValue == s.costs[zi][zj];
    assert r.costs[zi][zj] == 0;
    assert s.costs[zi][zj] >= 0;
  }

  lemma Step4NonNegative(s: State, r: State, minValue: int, n: nat)
    requires Shaped(s, n) && Shaped(r, n) && NonNegative(s.costs, n) && minValue > 0
    requires forall i, j :: 0 <= i < n && 0 <= j < n && !s.rowsCovered[i] && !s.colsCovered[j] ==> minValue <= s.costs[i][j]
    requires Step4Costs(s, r, minValue, n)
    ensures NonNegative(r.costs, n)
  {
    forall i, j | 0 <= i < n && 0 <= j < n
      ensures r.costs[i][j] >= 0
    {
      assert s.costs[i][j] >= 0;
      assert r.costs[i][j] == s.costs[i][j] + (if s.rowsCovered[i] then minValue else 0)
                                             - (if !s.colsCovered[j] then minValue else 0);
      if !s.rowsCovered[i] && !s.colsCovered[j] {
        assert minValue <= s.costs[i][j];
      }
    }
  }

  lemma Step4MarksOnZeros(s: State, r: State, order: seq<int>, minValue: int, n: nat)
    requires Shaped(s, n) && Shaped(r, n) && MarksOnZeros(s, n) && Covering(s, n, order)
    requires r.masks == s.masks
    requires Step4Costs(s, r, minValue, n)
    ensures MarksOnZeros(r, n)
  {
    forall i, j | 0 <= i < n && 0 <= j < n && r.masks[i][j] != Unmarked
      ensures r.costs[i][j] == 0
    {
      assert s.costs[i][j] == 0;
      assert s.rowsCovered[i] <==> !s.colsCovered[j];
    }
  }

  lemma Step4Potentials(c0: Matrix, s: State, r: State, u: seq<int>, v: seq<int>, minValue: int, n: nat)
    requires Shaped(s, n) && Shaped(r, n) && Potentials(c0, s.costs, u, v, n)
    requires Step4Costs(s, r, minValue, n)
    ensures Potentials(c0, r.costs, Step4RowPotential(u, s.rowsCovered, minValue, n), Step4ColPotential(v, s.colsCovered, minValue, n), n)
  {
  }

  /** The facts behind `RunStep4`'s contract, for the adjusted costs `r`. */
  lemma Step4Keeps(c0: Matrix, s: State, r: State, u: seq<int>, v: seq<int>, order: seq<int>, minValue: int, n: nat)
    requires Core(c0, s, u, v, n) && Covering(s, n, order) && !UncoveredZero(s, n)
    requires forall i, j :: 0 <= i < n && 0 <= j < n && !s.rowsCovered[i] && !s.colsCovered[j] ==> minValue <= s.costs[i][j]
    requires exists i, j :: 0 <= i < n && 0 <= j < n && !s.rowsCovered[i] && !s.colsCovered[j] && minValue == s.costs[i][j]
    requires Shaped(r, n) && r.masks == s.masks && r.rowsCovered == s.rowsCovered && r.colsCovered == s.colsCovered
    requires Step4Costs(s, r, minValue, n)
    ensures minValue > 0
    ensures Core(c0, r, Step4RowPotential(u, s.rowsCovered, minValue, n), Step4ColPotential(v, s.colsCovered, minValue, n), n)
    ensures Covering(r, n, order)
    ensures UncoveredZero(r, n)
  {
    Step4MinimumPositive(s, r, minValue, n);
    Step4NonNegative(s, r, minValue, n);
    Step4MarksOnZeros(s, r, order, minValue, n);
    Step4Potentials(c0, s, r, u, v, minValue, n);
    CoveringIgnoresCosts(s, r.costs, n, order);
    assert r == s.(costs := r.costs);
  }

  function Step4RowPotential(u: seq<int>, rowsCovered: seq<bool>, minValue: int, n: nat): (r: seq<int>)
    requires |u| == n && |rowsCovered| == n
    ensures |r| == n && forall a :: 0 <= a < n ==> r[a] == u[a] - (if rowsCovered[a] then minValue else 0)
  {
    seq(n, a requires 0 <= a < n => u[a] - (if rowsCovered[a] then minValue else 0))
  }

  function Step4ColPotential(v: seq<int>, colsCovered: seq<bool>, minValue: int, n: nat): (r: seq<int>)
    requires |v| == n && |colsCovered| == n
    ensures |r| == n && forall b :: 0 <= b < n ==> r[b] == v[b] + (if !colsCovered[b] then minValue else 0)
  {
    seq(n, b requires 0 <= b < n => v[b] + (if !colsCovered[b] then minValue else 0))
  }

  /** The loops of `RunStep4`: `min` is added to every covered row and taken from every uncovered column. */
  method AdjustCosts(s: State, n: nat, min: int) returns (r: State)
    requires Shaped(s, n)
    ensures Shaped(r, n) && r.masks == s.masks && r.rowsCovered == s.rowsCovered && r.colsCovered == s.colsCovered
    ensures Step4Costs(s, r, min, n)
  {
    var costs := s.costs;
    var i := 0;
    while i < n
      invariant 0 <= i <= n && CostsShaped(costs, n)
      invariant forall a, b :: 0 <= a < n && 0 <= b < n ==>
                  costs[a][b] == if a < i then s.costs[a][b] + (if s.rowsCovered[a] then min else 0)
                                                              - (if !s.colsCovered[b] then min else 0)
                                 else s.costs[a][b]
    {
      var row := AdjustRow(costs[i], s.rowsCovered[i], s.colsCovered, min);
      costs := costs[i := row];
      i := i + 1;
    }
    r := s.(costs := costs);
  }

  /** `RunStep4`: the smallest uncovered cost is added to every covered row and subtracted from every
      uncovered column. Starred and primed zeros stay zero, all costs stay non-negative, an uncovered zero
      appears, and the potentials absorb the change. */
  method RunStep4(s: State, n: nat, ghost c0: Matrix, ghost u: seq<int>, ghost v: seq<int>, ghost order: seq<int>)
    returns (r: State, next: int, ghost minValue: int, ghost u': seq<int>, ghost v': seq<int>)
    requires Core(c0, s, u, v, n) && Covering(s, n, order)
    requires UncoveredCell(s, n) && !UncoveredZero(s, n)
    ensures next == 2
    ensures minValue > 0
    ensures Shaped(r, n) && r.masks == s.masks && r.rowsCovered == s.rowsCovered && r.colsCovered == s.colsCovered
    ensures Step4Costs(s, r, minValue, n)
    ensures Core(c0, r, u', v', n)
    ensures Covering(r, n, order)
    ensures UncoveredZero(r, n)
  {
    var m := FindMinimum(s, n);
    var min := m.value;
    minValue := min;
    r := AdjustCosts(s, n, min);
    u' := Step4RowPotential(u, s.rowsCovered, minValue, n);
    v' := Step4ColPotential(v, s.colsCovered, minValue, n);
    Step4Keeps(c0, s, r, u, v, order, minValue, n);
    next := 2;
  }

  // ---------------------------------------------------------------------------------------------
  // Step 2

  /** The same cells are starred in `a` and `b`. */
  predicate SameStars(a: Masks, b: Masks, n: nat)
    requires MasksShaped(a, n) && MasksShaped(b, n)
  {
    forall i, j :: 0 <= i < n && 0 <= j < n ==> (a[i][j] == Starred <==> b[i][j] == Starred)
  }

  lemma SameStarsSameStarCols(a: Masks, b: Masks, n: nat)
    requires MasksShaped(a, n) && MasksShaped(b, n) && SameStars(a, b, n)
    ensures StarCols(a, n) == StarCols(b, n)
    ensures forall i :: 0 <= i < n ==> RowHasStar(a, n, i) == RowHasStar(b, n, i)
  {
    forall j | 0 <= j < n
      ensures ColHasStar(a, n, j) == ColHasStar(b, n, j)
    {
      if ColHasStar(a, n, j) {
        var i :| 0 <= i < n && a[i][j] == Starred;
        assert b[i][j] == Starred;
      }
      if ColHasStar(b, n, j) {
        var i :| 0 <= i < n && b[i][j] == Starred;
        assert a[i][j] == Starred;
      }
    }
    forall i | 0 <= i < n
      ensures RowHasStar(a, n, i) == RowHasStar(b, n, i)
    {
      if RowHasStar(a, n, i) {
        var j :| 0 <= j < n && a[i][j] == Starred;
        assert b[i][j] == Starred;
      }
      if RowHasStar(b, n, i) {
        var j :| 0 <= j < n && b[i][j] == Starred;
        assert a[i][j] == Starred;
      }
    }
  }

  /** The marks with `loc` primed. */
  function PrimeAt(m: Masks, n: nat, loc: Location): (r: Masks)
    requires MasksShaped(m, n) && 0 <= loc.row < n && 0 <= loc.column < n
    ensures MasksShaped(r, n)
    ensures forall i, j :: 0 <= i < n && 0 <= j < n ==>
              r[i][j] == if i == loc.row && j == loc.column then Primed else m[i][j]
  {
    m[loc.row := m[loc.row][loc.column := Primed]]
  }

  /** An uncovered zero of `s`, as `FindZero` reports it. */
  predicate IsUncoveredZero(s: State, n: nat, loc: Location)
    requires Shaped(s, n)
  {
    && 0 <= loc.row < n && 0 <= loc.column < n
    && s.costs[loc.row][loc.column] == 0
    && !s.rowsCovered[loc.row] && !s.colsCovered[loc.column]
  }

  /** The covering invariants leave an uncovered cell unmarked and its row out of the cover order. */
  lemma UncoveredCellUnmarked(s: State, n: nat, order: seq<int>, loc: Location)
    requires Shaped(s, n) && Covering(s, n, order) && IsUncoveredZero(s, n, loc)
    ensures s.masks[loc.row][loc.column] == Unmarked
    ensures loc.row !in order
    ensures !RowHasPrime(s.masks, n, loc.row)
  {
    assert CoverOrder(s, n, order);
    assert s.masks[loc.row][loc.column] != Starred;
    forall j | 0 <= j < n
      ensures s.masks[loc.row][j] != Primed
    {
    }
  }

  /** Priming an uncovered zero keeps the core invariants and the stars. */
  lemma PrimeKeepsCore(c0: Matrix, s: State, u: seq<int>, v: seq<int>, n: nat, loc: Location)
    requires Core(c0, s, u, v, n) && IsUncoveredZero(s, n, loc)
    requires s.masks[loc.row][loc.column] == Unmarked
    ensures var m := PrimeAt(s.masks, n, loc);
            && SameStars(m, s.masks, n)
            && StarsMatching(m, n)
            && forall rc, cc :: |rc| == n && |cc| == n ==> Core(c0, State(s.costs, m, rc, cc), u, v, n)
  {
    var m := PrimeAt(s.masks, n, loc);
    assert SameStars(m, s.masks, n);
    forall rc: seq<bool>, cc: seq<bool> | |rc| == n && |cc| == n
      ensures Core(c0, State(s.costs, m, rc, cc), u, v, n)
    {
      var t := State(s.costs, m, rc, cc);
      assert MarksOnZeros(t, n);
    }
  }

  /** Step 2 on a zero whose row holds a star: the row is covered, the star's column uncovered, and the
      covering invariants hold with the row appended to the cover order. */
  lemma PrimeThenCover(s: State, n: nat, order: seq<int>, loc: Location, starCol: int)
    requires Shaped(s, n) && StarsMatching(s.masks, n) && Covering(s, n, order) && IsUncoveredZero(s, n, loc)
    requires 0 <= starCol < n && s.masks[loc.row][starCol] == Starred
    ensures |order| < n
    ensures Covering(State(s.costs, PrimeAt(s.masks, n, loc), s.rowsCovered[loc.row := true], s.colsCovered[starCol := false]),
                     n, order + [loc.row])
  {
    UncoveredCellUnmarked(s, n, order, loc);
    var m := PrimeAt(s.masks, n, loc);
    var t := State(s.costs, m, s.rowsCovered[loc.row := true], s.colsCovered[starCol := false]);
    var order' := order + [loc.row];
    assert CoverOrder(s, n, order) && PrimesPointBack(s, n, order);
    assert s.colsCovered[starCol];
    assert loc.column != starCol;
    assert Distinct(order') by {
      forall a, b | 0 <= a < b < |order'|
        ensures order'[a] != order'[b]
      {
        if b == |order| {
          assert order'[a] == order[a];
        }
      }
    }
    DistinctBelowBounded(order', n);
    assert CoverOrder(t, n, order');
    CoverStars(s, n, order, loc, starCol);
    CoverPrimes(s, n, order, loc, starCol);
    CoverPrimesPointBack(s, n, order, loc, starCol);
  }

  lemma CoverStars(s: State, n: nat, order: seq<int>, loc: Location, starCol: int)
    requires Shaped(s, n) && StarsMatching(s.masks, n) && Covering(s, n, order) && IsUncoveredZero(s, n, loc)
    requires 0 <= starCol < n && s.masks[loc.row][starCol] == Starred
    ensures var t := State(s.costs, PrimeAt(s.masks, n, loc), s.rowsCovered[loc.row := true], s.colsCovered[starCol := false]);
            && (forall i, j :: 0 <= i < n && 0 <= j < n && t.masks[i][j] == Starred ==> (t.rowsCovered[i] <==> !t.colsCovered[j]))
            && (forall j :: 0 <= j < n && t.colsCovered[j] ==> ColHasStar(t.masks, n, j))
  {
    UncoveredCellUnmarked(s, n, order, loc);
    var m := PrimeAt(s.masks, n, loc);
    var t := State(s.costs, m, s.rowsCovered[loc.row := true], s.colsCovered[starCol := false]);
    forall i, j | 0 <= i < n && 0 <= j < n && t.masks[i][j] == Starred
      ensures t.rowsCovered[i] <==> !t.colsCovered[j]
    {
      assert s.masks[i][j] == Starred;
      if i == loc.row {
        assert j == starCol;
      } else {
        assert j != starCol;
      }
    }
    forall j | 0 <= j < n && t.colsCovered[j]
      ensures ColHasStar(t.masks, n, j)
    {
      assert ColHasStar(s.masks, n, j);
      var i :| 0 <= i < n && s.masks[i][j] == Starred;
      assert t.masks[i][j] == Starred;
    }
  }

  lemma CoverPrimes(s: State, n: nat, order: seq<int>, loc: Location, starCol: int)
    requires Shaped(s, n) && StarsMatching(s.masks, n) && Covering(s, n, order) && IsUncoveredZero(s, n, loc)
    requires 0 <= starCol < n && s.masks[loc.row][starCol] == Starred
    ensures var t := State(s.costs, PrimeAt(s.masks, n, loc), s.rowsCovered[loc.row := true], s.colsCovered[starCol := false]);
            && (forall i, j :: 0 <= i < n && 0 <= j < n && t.masks[i][j] == Primed ==> t.rowsCovered[i] && !t.colsCovered[j])
            && (forall i :: 0 <= i < n && t.rowsCovered[i] ==> RowHasStar(t.masks, n, i) && RowHasPrime(t.masks, n, i))
  {
    UncoveredCellUnmarked(s, n, order, loc);
    var m := PrimeAt(s.masks, n, loc);
    var t := State(s.costs, m, s.rowsCovered[loc.row := true], s.colsCovered[starCol := false]);
    assert s.colsCovered[starCol];
    assert loc.column != starCol;
    forall i, j | 0 <= i < n && 0 <= j < n && t.masks[i][j] == Primed
      ensures t.rowsCovered[i] && !t.colsCovered[j]
    {
      assert t.rowsCovered[i] == (i == loc.row || s.rowsCovered[i]);
      assert t.colsCovered[j] == (j != starCol && s.colsCovered[j]);
      if i != loc.row || j != loc.column {
        assert s.masks[i][j] == Primed;
      }
    }
    forall i | 0 <= i < n && t.rowsCovered[i]
      ensures RowHasStar(t.masks, n, i) && RowHasPrime(t.masks, n, i)
    {
      if i == loc.row {
        assert t.masks[i][starCol] == Starred;
        assert t.masks[i][loc.column] == Primed;
      } else {
        assert RowHasStar(s.masks, n, i) && RowHasPrime(s.masks, n, i);
        var a :| 0 <= a < n && s.masks[i][a] == Starred;
        var b :| 0 <= b < n && s.masks[i][b] == Primed;
        assert t.masks[i][a] == Starred && t.masks[i][b] == Primed;
      }
    }
  }

  lemma CoverPrimesPointBack(s: State, n: nat, order: seq<int>, loc: Location, starCol: int)
    requires Shaped(s, n) && StarsMatching(s.masks, n) && Covering(s, n, order) && IsUncoveredZero(s, n, loc)
    requires 0 <= starCol < n && s.masks[loc.row][starCol] == Starred
    ensures PrimesPointBack(State(s.costs, PrimeAt(s.masks, n, loc), s.rowsCovered[loc.row := true], s.colsCovered[starCol := false]),
                            n, order + [loc.row])
  {
    UncoveredCellUnmarked(s, n, order, loc);
    var m := PrimeAt(s.masks, n, loc);
    var t := State(s.costs, m, s.rowsCovered[loc.row := true], s.colsCovered[starCol := false]);
    var order' := order + [loc.row];
    assert CoverOrder(s, n, order) && PrimesPointBack(s, n, order);
    forall k, j, i {:trigger t.masks[order'[k]][j], t.masks[i][j]}
      | 0 <= k < |order'| && 0 <= order'[k] < n && 0 <= j < n && 0 <= i < n &&
                     t.masks[order'[k]][j] == Primed && t.masks[i][j] == Starred
      ensures i in order'[..k]
    {
      assert s.masks[i][j] == Starred;
      if k == |order| {
        assert order'[..k] == order;
        assert s.masks[loc.row][j] != Primed;
        assert j == loc.column;
        assert !s.colsCovered[j];
        assert s.rowsCovered[i];
      } else {
        assert order'[k] == order[k] && order'[..k] == order[..k];
        assert order[k] != loc.row;
        assert s.masks[order[k]][j] == Primed;
      }
    }
  }

  /** Step 2 on a zero whose row holds no star: the prime starts step 3's path. */
  lemma PrimeStartsPath(s: State, n: nat, order: seq<int>, loc: Location)
    requires Shaped(s, n) && Covering(s, n, order) && IsUncoveredZero(s, n, loc)
    requires !RowHasStar(s.masks, n, loc.row)
    ensures Step3Ready(s.(masks := PrimeAt(s.masks, n, loc)), n, order, loc)
  {
    UncoveredCellUnmarked(s, n, order, loc);
    var m := PrimeAt(s.masks, n, loc);
    var t := s.(masks := m);
    assert t.rowsCovered == s.rowsCovered && t.colsCovered == s.colsCovered;
    assert CoverOrder(s, n, order) && PrimesPointBack(s, n, order);
    forall j | 0 <= j < n
      ensures m[loc.row][j] != Starred
    {
    }
    forall i, j | 0 <= i < n && 0 <= j < n && m[i][j] == Starred
      ensures t.rowsCovered[i] <==> !t.colsCovered[j]
    {
      assert s.masks[i][j] == Starred;
    }
    forall i | 0 <= i < n && t.rowsCovered[i]
      ensures RowHasPrime(m, n, i)
    {
      assert RowHasPrime(s.masks, n, i);
      var b :| 0 <= b < n && s.masks[i][b] == Primed;
      assert m[i][b] == Primed;
    }
    assert CoverOrder(t, n, order);
    forall k, j, i {:trigger m[order[k]][j], m[i][j]}
      | 0 <= k < |order| && 0 <= order[k] < n && 0 <= j < n && 0 <= i < n &&
                     m[order[k]][j] == Primed && m[i][j] == Starred
      ensures i in order[..k]
    {
      assert order[k] != loc.row;
      assert s.masks[order[k]][j] == Primed && s.masks[i][j] == Starred;
    }
    assert PrimesPointBack(t, n, order);
  }

  /** `RunStep2`: primes uncovered zeros one after another. A zero whose row holds a star covers that row
      and uncovers the star's column; the first zero whose row holds no star starts step 3 (result 3);
      when no uncovered zero is left, step 4 follows (result 4). */
  method RunStep2(s: State, n: nat, pathStart: Location, ghost c0: Matrix, ghost u: seq<int>, ghost v: seq<int>,
                  ghost order: seq<int>)
    returns (r: State, next: int, start: Location, ghost order': seq<int>)
    requires Core(c0, s, u, v, n) && Covering(s, n, order)
    ensures Core(c0, r, u, v, n) && r.costs == s.costs && SameStars(r.masks, s.masks, n)
    ensures next == 3 || next == 4
    ensures next == 4 ==> Covering(r, n, order') && !UncoveredZero(r, n) && start == pathStart
    ensures next == 3 ==> Step3Ready(r, n, order', start)
    ensures |order| <= |order'| <= n
    ensures next == 4 && |order'| == |order| ==> r == s
  {
    r := s;
    order' := order;
    assert CoverOrder(s, n, order);
    DistinctBelowBounded(order, n);
    while true
      invariant Core(c0, r, u, v, n) && Covering(r, n, order') && r.costs == s.costs && SameStars(r.masks, s.masks, n)
      invariant |order| <= |order'| <= n
      invariant |order'| == |order| ==> r == s
      decreases n - |order'|
    {
      var loc := FindZero(r, n);
      if loc.row == -1 {
        return r, 4, pathStart, order';
      }
      UncoveredCellUnmarked(r, n, order', loc);
      PrimeKeepsCore(c0, r, u, v, n, loc);
      var masks := PrimeAt(r.masks, n, loc);
      var starCol := FindStarInRow(masks, n, loc.row);
      SameStarsSameStarCols(masks, r.masks, n);
      if starCol != -1 {
        PrimeThenCover(r, n, order', loc, starCol);
        r := State(r.costs, masks, r.rowsCovered[loc.row := true], r.colsCovered[starCol := false]);
        order' := order' + [loc.row];
      } else {
        PrimeStartsPath(r, n, order', loc);
        r := r.(masks := masks);
        return r, 3, loc, order';
      }
    }
  }
}
