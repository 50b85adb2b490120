/** The working data of the assignment solver and the invariants its steps keep: the reduced costs,
    the star/prime marks, the row and column covers, and the alternating path of step 3. */
module HungarianState {
  import opened HungarianSpec

  /** A cell of `masks`: 0, 1 (a starred zero) or 2 (a primed zero). */
  datatype Mark = Unmarked | Starred | Primed

  type Masks = seq<seq<Mark>>

  /** `Location`: a cell, or (-1, -1) for none. */
  datatype Location = Location(row: int, column: int)

  /** The reduced costs, the marks and the covers, all of side `n`. */
  datatype State = State(costs: Matrix, masks: Masks, rowsCovered: seq<bool>, colsCovered: seq<bool>)

  predicate MasksShaped(m: Masks, n: nat) {
    |m| == n && forall i :: 0 <= i < n ==> |m[i]| == n
  }

  predicate CostsShaped(c: Matrix, n: nat) {
    |c| == n && forall i :: 0 <= i < n ==> |c[i]| == n
  }

  predicate Shaped(s: State, n: nat) {
    && CostsShaped(s.costs, n)
    && MasksShaped(s.masks, n)
    && |s.rowsCovered| == n
    && |s.colsCovered| == n
  }

  /** The reduced costs differ from the original `c0` by a row potential `u` and a column potential `v`. */
  predicate Potentials(c0: Matrix, c: Matrix, u: seq<int>, v: seq<int>, n: nat) {
    && CostsShaped(c0, n) && CostsShaped(c, n) && |u| == n && |v| == n
    && forall i, j :: 0 <= i < n && 0 <= j < n ==> c0[i][j] == c[i][j] + u[i] + v[j]
  }

  predicate NonNegative(c: Matrix, n: nat)
    requires CostsShaped(c, n)
  {
    forall i, j :: 0 <= i < n && 0 <= j < n ==> c[i][j] >= 0
  }

  /** Only zeros are starred or primed. */
  predicate MarksOnZeros(s: State, n: nat)
    requires Shaped(s, n)
  {
    forall i, j :: 0 <= i < n && 0 <= j < n && s.masks[i][j] != Unmarked ==> s.costs[i][j] == 0
  }

  /** The starred cells form a partial matching: at most one per row and one per column. */
  predicate StarsMatching(m: Masks, n: nat)
    requires MasksShaped(m, n)
  {
    && (forall i, j, k :: 0 <= i < n && 0 <= j < n && 0 <= k < n && m[i][j] == Starred && m[i][k] == Starred ==> j == k)
    && (forall i, k, j :: 0 <= i < n && 0 <= k < n && 0 <= j < n && m[i][j] == Starred && m[k][j] == Starred ==> i == k)
  }

  /** What every step keeps. */
  predicate Core(c0: Matrix, s: State, u: seq<int>, v: seq<int>, n: nat) {
    && Shaped(s, n)
    && Potentials(c0, s.costs, u, v, n)
    && NonNegative(s.costs, n)
    && MarksOnZeros(s, n)
    && StarsMatching(s.masks, n)
  }

  predicate RowHasStar(m: Masks, n: nat, i: int)
    requires MasksShaped(m, n) && 0 <= i < n
  {
    exists j :: 0 <= j < n && m[i][j] == Starred
  }

  predicate RowHasPrime(m: Masks, n: nat, i: int)
    requires MasksShaped(m, n) && 0 <= i < n
  {
    exists j :: 0 <= j < n && m[i][j] == Primed
  }

  predicate ColHasStar(m: Masks, n: nat, j: int)
    requires MasksShaped(m, n) && 0 <= j < n
  {
    exists i :: 0 <= i < n && m[i][j] == Starred
  }

  /** The starred columns. */
  function StarCols(m: Masks, n: nat): (r: set<int>)
    requires MasksShaped(m, n)
    ensures forall j :: j in r <==> 0 <= j < n && ColHasStar(m, n, j)
  {
    set j | 0 <= j < n && ColHasStar(m, n, j)
  }

  lemma StarColsBounded(m: Masks, n: nat)
    requires MasksShaped(m, n)
    ensures |StarCols(m, n)| <= n
  {
    RangeCard(n);
    SubsetCard(StarCols(m, n), Range(n));
  }

  /** The state step 1 starts from: no primes and nothing covered. */
  predicate Step1Ready(s: State, n: nat)
    requires Shaped(s, n)
  {
    && (forall i, j :: 0 <= i < n && 0 <= j < n ==> s.masks[i][j] != Primed)
    && (forall i :: 0 <= i < n ==> !s.rowsCovered[i])
    && (forall j :: 0 <= j < n ==> !s.colsCovered[j])
  }

  /** `order` lists the covered rows, in the order step 2 covered them. */
  predicate CoverOrder(s: State, n: nat, order: seq<int>)
    requires Shaped(s, n)
  {
    && Distinct(order)
    && (forall k :: 0 <= k < |order| ==> 0 <= order[k] < n)
    && (forall i :: 0 <= i < n ==> (s.rowsCovered[i] <==> i in order))
  }

  /** A star in the column of a covered row's prime lies in a row that was covered earlier. */
  predicate PrimesPointBack(s: State, n: nat, order: seq<int>)
    requires Shaped(s, n)
  {
    forall k, j, i {:trigger s.masks[order[k]][j], s.masks[i][j]} ::
      (0 <= k < |order| && 0 <= order[k] < n && 0 <= j < n && 0 <= i < n &&
       s.masks[order[k]][j] == Primed && s.masks[i][j] == Starred) ==> i in order[..k]
  }

  /** The cover invariants of steps 2 and 4. */
  predicate Covering(s: State, n: nat, order: seq<int>)
    requires Shaped(s, n)
  {
    && (forall i, j {:trigger s.masks[i][j]} :: 0 <= i < n && 0 <= j < n && s.masks[i][j] == Starred ==> (s.rowsCovered[i] <==> !s.colsCovered[j]))
    && (forall i, j {:trigger s.masks[i][j]} :: 0 <= i < n && 0 <= j < n && s.masks[i][j] == Primed ==> s.rowsCovered[i] && !s.colsCovered[j])
    && (forall i :: 0 <= i < n && s.rowsCovered[i] ==> RowHasStar(s.masks, n, i) && RowHasPrime(s.masks, n, i))
    && (forall j :: 0 <= j < n && s.colsCovered[j] ==> ColHasStar(s.masks, n, j))
    && CoverOrder(s, n, order)
    && PrimesPointBack(s, n, order)
  }

  /** The covering invariants speak of marks and covers only, never of costs. */
  lemma CoveringIgnoresCosts(s: State, c: Matrix, n: nat, order: seq<int>)
    requires Shaped(s, n) && CostsShaped(c, n) && Covering(s, n, order)
    ensures Covering(s.(costs := c), n, order)
  {
    var r := s.(costs := c);
    assert r.masks == s.masks && r.rowsCovered == s.rowsCovered && r.colsCovered == s.colsCovered;
    assert CoverOrder(s, n, order) && PrimesPointBack(s, n, order);
    assert CoverOrder(r, n, order);
    assert PrimesPointBack(r, n, order);
  }

  /** The state step 3 starts from: as in step 2, except that `start` is a prime in an uncovered,
      star-less row and an uncovered column. */
  predicate Step3Ready(s: State, n: nat, order: seq<int>, start: Location)
    requires Shaped(s, n)
  {
    && 0 <= start.row < n && 0 <= start.column < n
    && s.masks[start.row][start.column] == Primed
    && !s.rowsCovered[start.row] && !s.colsCovered[start.column]
    && !RowHasStar(s.masks, n, start.row)
    && (forall i, j {:trigger s.masks[i][j]} :: 0 <= i < n && 0 <= j < n && s.masks[i][j] == Starred ==> (s.rowsCovered[i] <==> !s.colsCovered[j]))
    && (forall i :: 0 <= i < n && s.rowsCovered[i] ==> RowHasPrime(s.masks, n, i))
    && CoverOrder(s, n, order)
    && PrimesPointBack(s, n, order)
  }

  /** An uncovered zero exists (step 2 will find one). */
  predicate UncoveredZero(s: State, n: nat)
    requires Shaped(s, n)
  {
    exists i, j :: 0 <= i < n && 0 <= j < n && s.costs[i][j] == 0 && !s.rowsCovered[i] && !s.colsCovered[j]
  }

  // ---------------------------------------------------------------------------------------------
  // The alternating path of step 3

  /** The `path` array step 3 fills: prime, star, prime, ..., prime, where the k-th prime is at
      (rows[k], cols[k]) and the k-th star at (rows[k + 1], cols[k]). */
  function PathOf(rows: seq<int>, cols: seq<int>): (p: seq<Location>)
    requires |rows| == |cols| >= 1
    ensures |p| == 2 * |rows| - 1
    decreases |rows|
  {
    var t := |rows| - 1;
    if t == 0 then [Location(rows[0], cols[0])]
    else PathOf(rows[..t], cols[..t]) + [Location(rows[t], cols[t - 1]), Location(rows[t], cols[t])]
  }

  /** Extending the path by one row adds the star above the new prime, then the prime. */
  lemma PathOfAppend(rows: seq<int>, cols: seq<int>, row: int, col: int)
    requires |rows| == |cols| >= 1
    ensures PathOf(rows + [row], cols + [col]) ==
              PathOf(rows, cols) + [Location(row, cols[|cols| - 1]), Location(row, col)]
  {
    var t := |rows|;
    assert (rows + [row])[..t] == rows;
    assert (cols + [col])[..t] == cols;
  }

  lemma {:induction false} PathOfAt(rows: seq<int>, cols: seq<int>, x: int)
    requires |rows| == |cols| >= 1 && 0 <= x < 2 * |rows| - 1
    ensures PathOf(rows, cols)[x] == if x % 2 == 0 then Location(rows[x / 2], cols[x / 2])
                                     else Location(rows[(x + 1) / 2], cols[(x - 1) / 2])
    decreases |rows|
  {
    var t := |rows| - 1;
    if t > 0 && x < 2 * t - 1 {
      PathOfAt(rows[..t], cols[..t], x);
    }
  }

  function Next(rows: seq<int>, a: int): int
    requires 0 <= a < |rows| - 1
  {
    rows[a + 1]
  }

  ghost predicate OnPrimes(rows: seq<int>, cols: seq<int>, i: int, j: int)
    requires |rows| == |cols|
  {
    exists a :: 0 <= a < |rows| && rows[a] == i && cols[a] == j
  }

  ghost predicate OnStars(rows: seq<int>, cols: seq<int>, i: int, j: int)
    requires |rows| == |cols|
  {
    exists a :: 0 <= a < |rows| - 1 && Next(rows, a) == i && cols[a] == j
  }

  lemma {:induction false} InPathOf(rows: seq<int>, cols: seq<int>, i: int, j: int)
    requires |rows| == |cols| >= 1
    ensures Location(i, j) in PathOf(rows, cols) <==> OnPrimes(rows, cols, i, j) || OnStars(rows, cols, i, j)
    decreases |rows|
  {
    var t := |rows| - 1;
    if t > 0 {
      var rs, cs := rows[..t], cols[..t];
      InPathOf(rs, cs, i, j);
      assert OnPrimes(rows, cols, i, j) <==> OnPrimes(rs, cs, i, j) || (rows[t] == i && cols[t] == j) by {
        if OnPrimes(rows, cols, i, j) {
          var a :| 0 <= a < |rows| && rows[a] == i && cols[a] == j;
          if a < t {
            assert rs[a] == i && cs[a] == j;
          }
        }
        if OnPrimes(rs, cs, i, j) {
          var a :| 0 <= a < |rs| && rs[a] == i && cs[a] == j;
          assert rows[a] == i && cols[a] == j;
        }
      }
      assert OnStars(rows, cols, i, j) <==> OnStars(rs, cs, i, j) || (rows[t] == i && cols[t - 1] == j) by {
        if OnStars(rows, cols, i, j) {
          var a :| 0 <= a < |rows| - 1 && Next(rows, a) == i && cols[a] == j;
          if a < t - 1 {
            assert Next(rs, a) == i && cs[a] == j;
          }
        }
        if OnStars(rs, cs, i, j) {
          var a :| 0 <= a < |rs| - 1 && Next(rs, a) == i && cs[a] == j;
          assert Next(rows, a) == i && cols[a] == j;
        }
        if rows[t] == i && cols[t - 1] == j {
          assert Next(rows, t - 1) == i;
        }
      }
    }
  }

  /** `ConvertPath` on one cell: a star is unstarred, a prime is starred. */
  function Flip(x: Mark): Mark {
    match x
    case Starred => Unmarked
    case Primed => Starred
    case Unmarked => Unmarked
  }

  /** The marks after `ConvertPath`: every cell on the path flipped once, every other cell unchanged. */
  function FlipPath(m: Masks, n: nat, path: seq<Location>): (r: Masks)
    requires MasksShaped(m, n)
    ensures MasksShaped(r, n)
    ensures forall i, j :: 0 <= i < n && 0 <= j < n ==>
              r[i][j] == if Location(i, j) in path then Flip(m[i][j]) else m[i][j]
  {
    seq(n, i requires 0 <= i < n => seq(n, j requires 0 <= j < n =>
      if Location(i, j) in path then Flip(m[i][j]) else m[i][j]))
  }

  /** The path step 3 traces: primes at (rows[k], cols[k]), stars at (rows[k + 1], cols[k]), distinct rows
      and columns, no star in the first row nor in the last column. */
  ghost predicate AlternatingPath(m: Masks, n: nat, rows: seq<int>, cols: seq<int>)
    requires MasksShaped(m, n)
  {
    && |rows| == |cols| >= 1
    && (forall a :: 0 <= a < |rows| ==> 0 <= rows[a] < n && 0 <= cols[a] < n)
    && (forall a :: 0 <= a < |rows| ==> m[rows[a]][cols[a]] == Primed)
    && (forall a :: 0 <= a < |rows| - 1 ==> m[Next(rows, a)][cols[a]] == Starred)
    && Distinct(rows) && Distinct(cols)
    && !RowHasStar(m, n, rows[0])
    && !ColHasStar(m, n, cols[|cols| - 1])
  }

  /** A cell is starred after the flip iff it is a prime of the path, or an old star not on the path. */
  lemma FlippedStar(m: Masks, n: nat, rows: seq<int>, cols: seq<int>, i: int, j: int)
    requires MasksShaped(m, n) && AlternatingPath(m, n, rows, cols)
    requires 0 <= i < n && 0 <= j < n
    ensures FlipPath(m, n, PathOf(rows, cols))[i][j] == Starred <==>
              OnPrimes(rows, cols, i, j) || (m[i][j] == Starred && !OnStars(rows, cols, i, j))
  {
    InPathOf(rows, cols, i, j);
    if OnStars(rows, cols, i, j) {
      var a :| 0 <= a < |rows| - 1 && Next(rows, a) == i && cols[a] == j;
      assert m[i][j] == Starred;
    }
    if OnPrimes(rows, cols, i, j) {
      var a :| 0 <= a < |rows| && rows[a] == i && cols[a] == j;
      assert m[i][j] == Primed;
    }
  }

  /** The only old star in a path prime's row is the path star the flip removes. */
  lemma FlippedRowUnique(m: Masks, n: nat, rows: seq<int>, cols: seq<int>, a: int, k: int)
    requires MasksShaped(m, n) && StarsMatching(m, n) && AlternatingPath(m, n, rows, cols)
    requires 0 <= a < |rows| && 0 <= k < n
    requires m[rows[a]][k] == Starred
    ensures OnStars(rows, cols, rows[a], k)
  {
    if a > 0 {
      assert m[Next(rows, a - 1)][cols[a - 1]] == Starred;
      assert k == cols[a - 1];
    }
  }

  /** The only old star in a path prime's column is the path star the flip removes. */
  lemma FlippedColUnique(m: Masks, n: nat, rows: seq<int>, cols: seq<int>, a: int, k: int)
    requires MasksShaped(m, n) && StarsMatching(m, n) && AlternatingPath(m, n, rows, cols)
    requires 0 <= a < |rows| && 0 <= k < n
    requires m[k][cols[a]] == Starred
    ensures OnStars(rows, cols, k, cols[a])
  {
    if a < |rows| - 1 {
      assert m[Next(rows, a)][cols[a]] == Starred;
      assert k == Next(rows, a);
    }
  }

  /** Where a flip leaves a star: on a prime of the path, or on an old star off the path. */
  ghost predicate StarredAfter(m: Masks, n: nat, rows: seq<int>, cols: seq<int>, i: int, j: int)
    requires MasksShaped(m, n) && |rows| == |cols| && 0 <= i < n && 0 <= j < n
  {
    OnPrimes(rows, cols, i, j) || (m[i][j] == Starred && !OnStars(rows, cols, i, j))
  }

  lemma FlipKeepsRowsMatched(m: Masks, n: nat, rows: seq<int>, cols: seq<int>, i: int, j: int, k: int)
    requires MasksShaped(m, n) && StarsMatching(m, n) && AlternatingPath(m, n, rows, cols)
    requires 0 <= i < n && 0 <= j < n && 0 <= k < n
    requires StarredAfter(m, n, rows, cols, i, j) && StarredAfter(m, n, rows, cols, i, k)
    ensures j == k
  {
    if OnPrimes(rows, cols, i, j) {
      var a :| 0 <= a < |rows| && rows[a] == i && cols[a] == j;
      if OnPrimes(rows, cols, i, k) {
        var b :| 0 <= b < |rows| && rows[b] == i && cols[b] == k;
        assert a == b;
      } else {
        FlippedRowUnique(m, n, rows, cols, a, k);
      }
    } else if OnPrimes(rows, cols, i, k) {
      var b :| 0 <= b < |rows| && rows[b] == i && cols[b] == k;
      FlippedRowUnique(m, n, rows, cols, b, j);
    }
  }

  lemma FlipKeepsColsMatched(m: Masks, n: nat, rows: seq<int>, cols: seq<int>, i: int, k: int, j: int)
    requires MasksShaped(m, n) && StarsMatching(m, n) && AlternatingPath(m, n, rows, cols)
    requires 0 <= i < n && 0 <= k < n && 0 <= j < n
    requires StarredAfter(m, n, rows, cols, i, j) && StarredAfter(m, n, rows, cols, k, j)
    ensures i == k
  {
    if OnPrimes(rows, cols, i, j) {
      var a :| 0 <= a < |rows| && rows[a] == i && cols[a] == j;
      if OnPrimes(rows, cols, k, j) {
        var b :| 0 <= b < |rows| && rows[b] == k && cols[b] == j;
        assert a == b;
      } else {
        FlippedColUnique(m, n, rows, cols, a, k);
      }
    } else if OnPrimes(rows, cols, k, j) {
      var b :| 0 <= b < |rows| && rows[b] == k && cols[b] == j;
      FlippedColUnique(m, n, rows, cols, b, i);
    }
  }

  /** Flipping an alternating path keeps the stars a matching. */
  lemma FlipKeepsMatching(m: Masks, n: nat, rows: seq<int>, cols: seq<int>)
    requires MasksShaped(m, n) && StarsMatching(m, n) && AlternatingPath(m, n, rows, cols)
    ensures StarsMatching(FlipPath(m, n, PathOf(rows, cols)), n)
  {
    var r := FlipPath(m, n, PathOf(rows, cols));
    forall i, j, k | 0 <= i < n && 0 <= j < n && 0 <= k < n && r[i][j] == Starred && r[i][k] == Starred
      ensures j == k
    {
      FlippedStar(m, n, rows, cols, i, j);
      FlippedStar(m, n, rows, cols, i, k);
      FlipKeepsRowsMatched(m, n, rows, cols, i, j, k);
    }
    forall i, k, j | 0 <= i < n && 0 <= k < n && 0 <= j < n && r[i][j] == Starred && r[k][j] == Starred
      ensures i == k
    {
      FlippedStar(m, n, rows, cols, i, j);
      FlippedStar(m, n, rows, cols, k, j);
      FlipKeepsColsMatched(m, n, rows, cols, i, k, j);
    }
  }

  /** A star left in a column after the flip was there before, or sits in the path's last column. */
  lemma FlippedColumnKept(m: Masks, n: nat, rows: seq<int>, cols: seq<int>, i: int, j: int)
    requires MasksShaped(m, n) && AlternatingPath(m, n, rows, cols)
    requires 0 <= i < n && 0 <= j < n && StarredAfter(m, n, rows, cols, i, j)
    ensures ColHasStar(m, n, j) || j == cols[|cols| - 1]
  {
    if OnPrimes(rows, cols, i, j) {
      var a :| 0 <= a < |rows| && rows[a] == i && cols[a] == j;
      if a < |rows| - 1 {
        assert m[Next(rows, a)][j] == Starred;
      }
    }
  }

  /** A column starred before the flip, and the path's last column, hold a star after it. */
  lemma FlippedColumnGained(m: Masks, n: nat, rows: seq<int>, cols: seq<int>, j: int)
    requires MasksShaped(m, n) && AlternatingPath(m, n, rows, cols) && 0 <= j < n
    requires ColHasStar(m, n, j) || j == cols[|cols| - 1]
    ensures exists i :: 0 <= i < n && StarredAfter(m, n, rows, cols, i, j)
  {
    var t := |rows| - 1;
    if j == cols[t] {
      assert OnPrimes(rows, cols, rows[t], j);
      assert StarredAfter(m, n, rows, cols, rows[t], j);
    } else {
      var i :| 0 <= i < n && m[i][j] == Starred;
      if OnStars(rows, cols, i, j) {
        var a :| 0 <= a < |rows| - 1 && Next(rows, a) == i && cols[a] == j;
        assert OnPrimes(rows, cols, rows[a], j);
        assert StarredAfter(m, n, rows, cols, rows[a], j);
      } else {
        assert StarredAfter(m, n, rows, cols, i, j);
      }
    }
  }

  lemma FlippedColumn(m: Masks, n: nat, rows: seq<int>, cols: seq<int>, j: int)
    requires MasksShaped(m, n) && AlternatingPath(m, n, rows, cols) && 0 <= j < n
    ensures ColHasStar(FlipPath(m, n, PathOf(rows, cols)), n, j) <==> ColHasStar(m, n, j) || j == cols[|cols| - 1]
  {
    var r := FlipPath(m, n, PathOf(rows, cols));
    if ColHasStar(r, n, j) {
      var i :| 0 <= i < n && r[i][j] == Starred;
      FlippedStar(m, n, rows, cols, i, j);
      FlippedColumnKept(m, n, rows, cols, i, j);
    }
    if ColHasStar(m, n, j) || j == cols[|cols| - 1] {
      FlippedColumnGained(m, n, rows, cols, j);
      var i :| 0 <= i < n && StarredAfter(m, n, rows, cols, i, j);
      FlippedStar(m, n, rows, cols, i, j);
      assert r[i][j] == Starred;
    }
  }

  /** Flipping an alternating path stars exactly one more column: the last one. */
  lemma FlipAddsStarColumn(m: Masks, n: nat, rows: seq<int>, cols: seq<int>)
    requires MasksShaped(m, n) && AlternatingPath(m, n, rows, cols)
    ensures var last := cols[|cols| - 1];
            && last !in StarCols(m, n)
            && StarCols(FlipPath(m, n, PathOf(rows, cols)), n) == StarCols(m, n) + {last}
            && |StarCols(FlipPath(m, n, PathOf(rows, cols)), n)| == |StarCols(m, n)| + 1
  {
    var r := FlipPath(m, n, PathOf(rows, cols));
    forall j | 0 <= j < n
      ensures ColHasStar(r, n, j) <==> ColHasStar(m, n, j) || j == cols[|cols| - 1]
    {
      FlippedColumn(m, n, rows, cols, j);
    }
    assert StarCols(r, n) == StarCols(m, n) + {cols[|cols| - 1]};
  }
}
