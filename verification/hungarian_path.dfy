/** Step 3 of the assignment solver (`HungarianAlgorithm.RunStep3`): from the prime step 2 left in a
    star-less row, follow star, prime, star, ... through the columns until a column holds no star, then
    flip the path. One more column ends up starred. */
module HungarianPath {
  import opened HungarianSpec
  import opened HungarianState
  import opened HungarianSteps

  /** The cells of the path traced so far: primes at (rows[a], cols[a]), stars at (rows[a + 1], cols[a]). */
  ghost predicate PathCells(s: State, n: nat, rows: seq<int>, cols: seq<int>)
    requires Shaped(s, n) && |rows| == |cols|
  {
    && (forall a :: 0 <= a < |rows| ==> 0 <= rows[a] < n && 0 <= cols[a] < n)
    && (forall a :: 0 <= a < |rows| ==> s.masks[rows[a]][cols[a]] == Primed)
    && (forall a :: 0 <= a < |rows| - 1 ==> s.masks[Next(rows, a)][cols[a]] == Starred)
  }

  /** Every row after the first is a covered row, `order[ks[a]]`, and the last one was covered before all the others. */
  ghost predicate PathOrder(order: seq<int>, rows: seq<int>, ks: seq<int>)
    requires |rows| == |ks| >= 1
  {
    && ks[0] == |order|
    && (forall a :: 1 <= a < |ks| ==> 0 <= ks[a] < |order| && order[ks[a]] == rows[a])
    && (forall a :: 0 <= a < |ks| - 1 ==> ks[|ks| - 1] < ks[a])
  }

  /** The path step 3 has traced so far from `start`. */
  ghost predicate PartialPath(s: State, n: nat, order: seq<int>, start: Location,
                              rows: seq<int>, cols: seq<int>, ks: seq<int>)
    requires Shaped(s, n)
  {
    && |rows| == |cols| == |ks| >= 1
    && rows[0] == start.row && cols[0] == start.column
    && PathCells(s, n, rows, cols)
    && Distinct(rows) && Distinct(cols)
    && PathOrder(order, rows, ks)
  }

  lemma PathStarts(s: State, n: nat, order: seq<int>, start: Location)
    requires Shaped(s, n) && Step3Ready(s, n, order, start)
    ensures PartialPath(s, n, order, start, [start.row], [start.column], [|order|])
  {
  }

  /** The star in the last path column lies in a row covered before the last path row; that row holds a prime. */
  lemma StarRowCovered(s: State, n: nat, order: seq<int>, start: Location,
                       rows: seq<int>, cols: seq<int>, ks: seq<int>, row: int)
    requires Shaped(s, n) && Step3Ready(s, n, order, start) && PartialPath(s, n, order, start, rows, cols, ks)
    requires 0 <= row < n && s.masks[row][cols[|cols| - 1]] == Starred
    ensures RowHasPrime(s.masks, n, row)
    ensures exists k :: 0 <= k < ks[|ks| - 1] && order[k] == row
  {
    var t := |rows| - 1;
    assert CoverOrder(s, n, order);
    if t == 0 {
      assert s.rowsCovered[row];
      assert row in order;
      var k :| 0 <= k < |order| && order[k] == row;
    } else {
      var kt := ks[t];
      assert order[kt] == rows[t];
      assert s.masks[order[kt]][cols[t]] == Primed;
      assert row in order[..kt];
      var k :| 0 <= k < kt && order[..kt][k] == row;
      assert order[k] == row;
    }
    assert s.rowsCovered[row];
  }

  /** The star's row is not on the path yet: the first path row is uncovered, and every later one was
      covered after the star's row. */
  lemma NewRowFresh(order: seq<int>, rows: seq<int>, ks: seq<int>, row: int, k: int)
    requires |rows| == |ks| >= 1 && Distinct(order) && rows[0] !in order && PathOrder(order, rows, ks)
    requires 0 <= k < ks[|ks| - 1] && order[k] == row
    ensures forall a :: 0 <= a < |rows| ==> rows[a] != row
  {
    var t := |rows| - 1;
    forall a | 1 <= a <= t
      ensures rows[a] != row
    {
      assert ks[a] >= ks[t] > k;
      assert order[ks[a]] != order[k];
    }
  }

  /** The prime in the star's row lies in a column not on the path yet. */
  lemma NewColFresh(s: State, n: nat, order: seq<int>, start: Location,
                    rows: seq<int>, cols: seq<int>, ks: seq<int>, row: int, col: int, k: int)
    requires Shaped(s, n) && Step3Ready(s, n, order, start)
    requires PartialPath(s, n, order, start, rows, cols, ks)
    requires 0 <= row < n && s.masks[row][cols[|cols| - 1]] == Starred
    requires 0 <= col < n && s.masks[row][col] == Primed
    requires 0 <= k < ks[|ks| - 1] && order[k] == row
    ensures forall a :: 0 <= a < |cols| ==> cols[a] != col
  {
    var t := |rows| - 1;
    assert CoverOrder(s, n, order) && PrimesPointBack(s, n, order);
    forall a | 0 <= a < t
      ensures cols[a] != col
    {
      var i := Next(rows, a);
      assert s.masks[i][cols[a]] == Starred;
      assert ks[a + 1] >= ks[t] > k;
      assert order[ks[a + 1]] == i;
      forall x | 0 <= x < k
        ensures order[..k][x] != i
      {
        assert order[x] != order[ks[a + 1]];
      }
      var before := order[..k];
      assert i !in before;
      assert s.masks[order[k]][cols[a]] == Primed ==> i in before;
    }
  }

  lemma DistinctAppend(p: seq<int>, x: int)
    requires Distinct(p) && forall a :: 0 <= a < |p| ==> p[a] != x
    ensures Distinct(p + [x])
  {
  }

  lemma PathCellsAppend(s: State, n: nat, rows: seq<int>, cols: seq<int>, row: int, col: int)
    requires Shaped(s, n) && |rows| == |cols| >= 1 && PathCells(s, n, rows, cols)
    requires 0 <= row < n && s.masks[row][cols[|cols| - 1]] == Starred
    requires 0 <= col < n && s.masks[row][col] == Primed
    ensures PathCells(s, n, rows + [row], cols + [col])
  {
    var t := |rows| - 1;
    var rows', cols' := rows + [row], cols + [col];
    forall a | 0 <= a < |rows'| - 1
      ensures s.masks[Next(rows', a)][cols'[a]] == Starred
    {
      if a < t {
        assert Next(rows', a) == Next(rows, a);
      }
    }
  }

  lemma PathOrderAppend(order: seq<int>, rows: seq<int>, ks: seq<int>, row: int, k: int)
    requires |rows| == |ks| >= 1 && PathOrder(order, rows, ks)
    requires 0 <= k < ks[|ks| - 1] && order[k] == row
    ensures PathOrder(order, rows + [row], ks + [k])
  {
  }

  /** A fresh row with its star under the last prime, and a fresh column for its prime, extend the path. */
  lemma ExtendPath(s: State, n: nat, order: seq<int>, start: Location,
                   rows: seq<int>, cols: seq<int>, ks: seq<int>, row: int, col: int, k: int)
    requires Shaped(s, n) && PartialPath(s, n, order, start, rows, cols, ks)
    requires 0 <= row < n && s.masks[row][cols[|cols| - 1]] == Starred
    requires 0 <= col < n && s.masks[row][col] == Primed
    requires 0 <= k < ks[|ks| - 1] && order[k] == row
    requires forall a :: 0 <= a < |rows| ==> rows[a] != row
    requires forall a :: 0 <= a < |cols| ==> cols[a] != col
    ensures PartialPath(s, n, order, start, rows + [row], cols + [col], ks + [k])
  {
    DistinctAppend(rows, row);
    DistinctAppend(cols, col);
    PathCellsAppend(s, n, rows, cols, row, col);
    PathOrderAppend(order, rows, ks, row, k);
  }

  /** One step of the trace: the star in the last path column and the prime in its row extend the path. */
  lemma TraceStep(s: State, n: nat, order: seq<int>, start: Location,
                  rows: seq<int>, cols: seq<int>, ks: seq<int>, row: int, col: int, k: int)
    requires Shaped(s, n) && Step3Ready(s, n, order, start)
    requires PartialPath(s, n, order, start, rows, cols, ks)
    requires 0 <= row < n && s.masks[row][cols[|cols| - 1]] == Starred
    requires 0 <= col < n && s.masks[row][col] == Primed
    requires 0 <= k < ks[|ks| - 1] && order[k] == row
    ensures PartialPath(s, n, order, start, rows + [row], cols + [col], ks + [k])
  {
    assert CoverOrder(s, n, order);
    assert rows[0] !in order;
    NewRowFresh(order, rows, ks, row, k);
    NewColFresh(s, n, order, start, rows, cols, ks, row, col, k);
    ExtendPath(s, n, order, start, rows, cols, ks, row, col, k);
  }

  /** The bookkeeping of one trace step: the extended path is the path of the extended rows and columns,
      and ends at the new prime. */
  lemma TraceAppend(rows: seq<int>, cols: seq<int>, ks: seq<int>, path: seq<Location>, row: int, col: int, k: int)
    requires |rows| == |cols| == |ks| >= 1 && path == PathOf(rows, cols)
    ensures var path' := path + [Location(row, cols[|cols| - 1]), Location(row, col)];
            && path' == PathOf(rows + [row], cols + [col])
            && path'[|path'| - 1] == Location((rows + [row])[|rows|], (cols + [col])[|cols|])
            && (ks + [k])[|ks|] == k
  {
    PathOfAppend(rows, cols, row, col);
  }

  /** When the last path column holds no star, the path is an alternating path. */
  lemma PathEnds(s: State, n: nat, order: seq<int>, start: Location, rows: seq<int>, cols: seq<int>, ks: seq<int>)
    requires Shaped(s, n) && Step3Ready(s, n, order, start) && PartialPath(s, n, order, start, rows, cols, ks)
    requires !ColHasStar(s.masks, n, cols[|cols| - 1])
    ensures AlternatingPath(s.masks, n, rows, cols)
    ensures |rows| <= n
  {
    DistinctBelowBounded(rows, n);
  }

  /** The path visits no cell twice. */
  lemma PathOfDistinct(rows: seq<int>, cols: seq<int>)
    requires |rows| == |cols| >= 1 && Distinct(rows) && Distinct(cols)
    ensures DistinctLocations(PathOf(rows, cols))
  {
    var p := PathOf(rows, cols);
    forall x, y | 0 <= x < y < |p|
      ensures p[x] != p[y]
    {
      PathOfAt(rows, cols, x);
      PathOfAt(rows, cols, y);
    }
  }

  lemma PathInRange(rows: seq<int>, cols: seq<int>, n: nat)
    requires |rows| == |cols| >= 1
    requires forall a :: 0 <= a < |rows| ==> 0 <= rows[a] < n && 0 <= cols[a] < n
    ensures forall x :: 0 <= x < |PathOf(rows, cols)| ==>
              0 <= PathOf(rows, cols)[x].row < n && 0 <= PathOf(rows, cols)[x].column < n
  {
    forall x | 0 <= x < |PathOf(rows, cols)|
      ensures 0 <= PathOf(rows, cols)[x].row < n && 0 <= PathOf(rows, cols)[x].column < n
    {
      PathOfAt(rows, cols, x);
    }
  }

  /** A path of `2 * rows - 1` cells over at most `n` rows fits the `n * n` cells the path array holds. */
  lemma PathFits(t: nat, n: nat)
    requires 1 <= t <= n
    ensures 2 * t - 1 <= n * n
  {
    assert n * n >= 2 * n - 1 by {
      assert (n - 1) * (n - 1) >= 0;
    }
  }

  /** Flipping and clearing primes leaves the costs, the potentials and the stars consistent. */
  lemma FlipKeepsCore(c0: Matrix, s: State, u: seq<int>, v: seq<int>, n: nat, rows: seq<int>, cols: seq<int>, r: State)
    requires Core(c0, s, u, v, n) && AlternatingPath(s.masks, n, rows, cols)
    requires Shaped(r, n) && r.costs == s.costs
    requires var f := FlipPath(s.masks, n, PathOf(rows, cols));
             forall i, j :: 0 <= i < n && 0 <= j < n ==> r.masks[i][j] == if f[i][j] == Primed then Unmarked else f[i][j]
    ensures Core(c0, r, u, v, n)
    ensures |StarCols(r.masks, n)| == |StarCols(s.masks, n)| + 1
    ensures forall i, j :: 0 <= i < n && 0 <= j < n ==> r.masks[i][j] != Primed
  {
    var f := FlipPath(s.masks, n, PathOf(rows, cols));
    FlipKeepsMatching(s.masks, n, rows, cols);
    FlipAddsStarColumn(s.masks, n, rows, cols);
    assert SameStars(r.masks, f, n);
    SameStarsSameStarCols(r.masks, f, n);
    assert MarksOnZeros(r, n) by {
      forall i, j | 0 <= i < n && 0 <= j < n && r.masks[i][j] != Unmarked
        ensures r.costs[i][j] == 0
      {
        assert f[i][j] != Unmarked;
        assert s.masks[i][j] != Unmarked;
      }
    }
  }

  /** The loop of `RunStep3`: from `start`, alternately the star in the last path column and the prime in
      its row, until a column holds no star. */
  method TracePath(s: State, n: nat, start: Location, ghost order: seq<int>)
    returns (path: seq<Location>, ghost rows: seq<int>, ghost cols: seq<int>)
    requires Shaped(s, n) && Step3Ready(s, n, order, start)
    ensures AlternatingPath(s.masks, n, rows, cols) && rows[0] == start.row && cols[0] == start.column
    ensures path == PathOf(rows, cols) && |rows| <= n
  {
    path := [start];
    rows, cols := [start.row], [start.column];
    ghost var ks := [|order|];
    PathStarts(s, n, order, start);
    while true
      invariant PartialPath(s, n, order, start, rows, cols, ks)
      invariant path == PathOf(rows, cols)
      invariant path[|path| - 1] == Location(rows[|rows| - 1], cols[|cols| - 1])
      decreases ks[|ks| - 1]
    {
      var last := path[|path| - 1];
      var row := FindStarInColumn(s.masks, n, last.column);
      if row == -1 {
        break;
      }
      StarRowCovered(s, n, order, start, rows, cols, ks, row);
      ghost var k :| 0 <= k < ks[|ks| - 1] && order[k] == row;
      var col := FindPrimeInRow(s.masks, n, row);
      TraceStep(s, n, order, start, rows, cols, ks, row, col, k);
      TraceAppend(rows, cols, ks, path, row, col, k);
      rows, cols, ks := rows + [row], cols + [col], ks + [k];
      path := path + [Location(row, last.column), Location(row, col)];
    }
    PathEnds(s, n, order, start, rows, cols, ks);
  }

  /** `RunStep3`: traces the alternating path from `start`, flips it, clears the covers and the primes, and
      returns to step 1 with one more starred column. `pathLength` is the number of path cells, which the
      `w * h` path array of the solver always holds. */
  method RunStep3(s: State, n: nat, start: Location, ghost c0: Matrix, ghost u: seq<int>, ghost v: seq<int>,
                  ghost order: seq<int>)
    returns (r: State, next: int, pathLength: int)
    requires Core(c0, s, u, v, n) && Step3Ready(s, n, order, start)
    ensures next == 1
    ensures Core(c0, r, u, v, n) && r.costs == s.costs && Step1Ready(r, n)
    ensures |StarCols(r.masks, n)| == |StarCols(s.masks, n)| + 1
    ensures 1 <= pathLength <= n * n
  {
    var path, rows, cols := TracePath(s, n, start, order);
    PathOfDistinct(rows, cols);
    PathInRange(rows, cols, n);
    PathFits(|rows|, n);
    pathLength := |path|;
    var masks := ConvertPath(s.masks, n, path);
    var cleared := ClearCovers(s.(masks := masks), n);
    var unprimed := ClearPrimes(cleared.masks, n);
    r := cleared.(masks := unprimed);
    FlipKeepsCore(c0, s, u, v, n, rows, cols, r);
    next := 1;
  }
}
