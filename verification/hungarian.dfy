/** `HungarianAlgorithm.FindAssignments`: reduce every row by its minimum, star a greedy set of zeros, run
    steps 1 to 4 until every column is starred, and read off each row's starred column. The result is a
    permutation of minimal (or maximal) total cost. */
module HungarianAlgorithm {
  import opened Wrappers
  import opened HungarianSpec
  import opened HungarianState
  import opened HungarianSteps
  import opened HungarianPath

  /** The matrix the algorithm minimises: the costs themselves, or their negation when maximising. */
  function Oriented(m: Matrix, e: Extremum): (r: Matrix)
    ensures e == Min ==> r == m
    ensures e == Max ==> r == Negate(m)
  {
    if e == Max then Negate(m) else m
  }

  function Zeros(n: nat): (r: seq<int>)
    ensures |r| == n && forall j :: 0 <= j < n ==> r[j] == 0
  {
    seq(n, j => 0)
  }

  /** One row of the reduction: negated when maximising, then lowered by its smallest cell, so that every
      cell is non-negative and (in a non-empty row) one is zero. */
  method ReduceRow(row: seq<int>, negate: bool) returns (r: seq<int>, ghost min: int)
    ensures |r| == |row|
    ensures forall j :: 0 <= j < |row| ==> r[j] == (if negate then -row[j] else row[j]) - min
    ensures forall j :: 0 <= j < |row| ==> r[j] >= 0
    ensures |row| > 0 ==> exists j :: 0 <= j < |row| && r[j] == 0
  {
    r := row;
    var m: Option<int> := None;
    var j := 0;
    while j < |row|
      invariant 0 <= j <= |row| && |r| == |row|
      invariant forall k :: 0 <= k < |row| ==> r[k] == if k < j && negate then -row[k] else row[k]
      invariant m.None? <==> j == 0
      invariant m.Some? ==> (forall k :: 0 <= k < j ==> m.value <= r[k]) && exists k :: 0 <= k < j && m.value == r[k]
    {
      if negate {
        r := r[j := -r[j]];
      }
      m := Some(MinOf(m, r[j]));
      j := j + 1;
    }
    if m.None? {
      min := 0;
      return;
    }
    var least := m.value;
    min := least;
    var oriented := r;
    ghost var zero :| 0 <= zero < |row| && least == oriented[zero];
    j := 0;
    while j < |row|
      invariant 0 <= j <= |row| && |r| == |row|
      invariant forall k :: 0 <= k < |row| ==> r[k] == if k < j then oriented[k] - least else oriented[k]
    {
      r := r[j := r[j] - least];
      j := j + 1;
    }
    assert r[zero] == 0;
  }

  predicate HasZero(row: seq<int>) {
    exists j :: 0 <= j < |row| && row[j] == 0
  }

  /** The reduction loop of `FindAssignments`: every row lowered by its minimum. The row minima are the
      row potentials of the reduced matrix. */
  method ReduceRows(costs: Matrix, e: Extremum) returns (c: Matrix, ghost u: seq<int>)
    requires IsSquare(costs)
    ensures CostsShaped(c, |costs|) && NonNegative(c, |costs|)
    ensures Potentials(Oriented(costs, e), c, u, Zeros(|costs|), |costs|)
    ensures forall i :: 0 <= i < |costs| ==> HasZero(c[i])
  {
    var n := |costs|;
    ghost var c0 := Oriented(costs, e);
    c := costs;
    u := seq(n, i => 0);
    var i := 0;
    while i < n
      invariant 0 <= i <= n && CostsShaped(c, n) && |u| == n
      invariant forall a, b :: 0 <= a < i && 0 <= b < n ==> c[a][b] >= 0 && c0[a][b] == c[a][b] + u[a]
      invariant forall a :: 0 <= a < i ==> HasZero(c[a])
    {
      var row, min := ReduceRow(costs[i], e == Max);
      forall b | 0 <= b < n
        ensures c0[i][b] == row[b] + min
      {
        if e == Max {
          assert c0[i][b] == -costs[i][b];
        }
      }
      assert HasZero(row);
      c := c[i := row];
      u := u[i := min];
      i := i + 1;
    }
  }

  /** Every starred cell is a zero whose row and column are marked taken. */
  predicate StarsTaken(c: Matrix, m: Masks, rows: seq<bool>, cols: seq<bool>, n: nat)
    requires CostsShaped(c, n) && MasksShaped(m, n) && |rows| == n && |cols| == n
  {
    forall a, b {:trigger m[a][b]} :: 0 <= a < n && 0 <= b < n && m[a][b] == Starred ==> c[a][b] == 0 && rows[a] && cols[b]
  }

  /** Every taken row and column holds a star. */
  predicate TakenStarred(m: Masks, rows: seq<bool>, cols: seq<bool>, n: nat)
    requires MasksShaped(m, n) && |rows| == n && |cols| == n
  {
    && (forall a :: 0 <= a < n && rows[a] ==> RowHasStar(m, n, a))
    && (forall b :: 0 <= b < n && cols[b] ==> ColHasStar(m, n, b))
  }

  predicate NoPrimes(m: Masks, n: nat)
    requires MasksShaped(m, n)
  {
    forall a, b :: 0 <= a < n && 0 <= b < n ==> m[a][b] != Primed
  }

  /** What the greedy pass keeps: stars on zeros, in taken rows and columns, forming a matching. */
  predicate Greedy(c: Matrix, m: Masks, rows: seq<bool>, cols: seq<bool>, n: nat) {
    && CostsShaped(c, n) && MasksShaped(m, n) && |rows| == n && |cols| == n
    && NoPrimes(m, n) && StarsTaken(c, m, rows, cols, n) && TakenStarred(m, rows, cols, n)
    && StarsMatching(m, n)
  }

  /** The inner loop of the greedy pass, on row `i`. */
  method StarZerosInRow(c: Matrix, n: nat, m: Masks, rows: seq<bool>, cols: seq<bool>, i: int)
    returns (m': Masks, rows': seq<bool>, cols': seq<bool>)
    requires Greedy(c, m, rows, cols, n) && 0 <= i < n
    ensures Greedy(c, m', rows', cols', n)
    ensures forall b :: 0 <= b < n && c[i][b] == 0 ==> rows'[i] || cols'[b]
    ensures forall a :: 0 <= a < n && rows[a] ==> rows'[a]
    ensures forall b :: 0 <= b < n && cols[b] ==> cols'[b]
  {
    m', rows', cols' := m, rows, cols;
    var j := 0;
    while j < n
      invariant 0 <= j <= n && Greedy(c, m', rows', cols', n)
      invariant forall b :: 0 <= b < j && c[i][b] == 0 ==> rows'[i] || cols'[b]
      invariant forall a :: 0 <= a < n && rows[a] ==> rows'[a]
      invariant forall b :: 0 <= b < n && cols[b] ==> cols'[b]
    {
      if c[i][j] == 0 && !rows'[i] && !cols'[j] {
        StarKeepsMatching(m', n, rows', cols', i, j);
        StarTakes(c, m', n, rows', cols', i, j);
        m' := m'[i := m'[i][j := Starred]];
        rows' := rows'[i := true];
        cols' := cols'[j := true];
      }
      j := j + 1;
    }
  }

  /** `new byte[h, w]`: no cell marked. */
  function Blank(n: nat): (m: Masks)
    ensures MasksShaped(m, n) && forall i, j :: 0 <= i < n && 0 <= j < n ==> m[i][j] == Unmarked
  {
    seq(n, i => seq(n, j => Unmarked))
  }

  /** `new bool[n]`: nothing covered. */
  function Uncovered(n: nat): (r: seq<bool>)
    ensures |r| == n && forall i :: 0 <= i < n ==> !r[i]
  {
    seq(n, i => false)
  }

  lemma BlankIsGreedy(c: Matrix, n: nat)
    requires CostsShaped(c, n)
    ensures Greedy(c, Blank(n), Uncovered(n), Uncovered(n), n)
  {
    var m := Blank(n);
    assert forall i, j :: 0 <= i < n && 0 <= j < n ==> m[i][j] == Unmarked;
  }

  /** The greedy pass of `FindAssignments`: in row-major order, star every zero whose row and column hold no
      star yet. Afterwards every zero shares a row or a column with a star. */
  method StarZeros(c: Matrix, n: nat) returns (s: State)
    requires CostsShaped(c, n)
    ensures Shaped(s, n) && s.costs == c && Step1Ready(s, n)
    ensures MarksOnZeros(s, n) && StarsMatching(s.masks, n)
    ensures forall i, j :: 0 <= i < n && 0 <= j < n && c[i][j] == 0 ==>
              RowHasStar(s.masks, n, i) || ColHasStar(s.masks, n, j)
  {
    var masks := Blank(n);
    var rows := Uncovered(n);
    var cols := Uncovered(n);
    BlankIsGreedy(c, n);
    var i := 0;
    while i < n
      invariant 0 <= i <= n && Greedy(c, masks, rows, cols, n)
      invariant forall a, b :: 0 <= a < i && 0 <= b < n && c[a][b] == 0 ==> rows[a] || cols[b]
    {
      masks, rows, cols := StarZerosInRow(c, n, masks, rows, cols, i);
      i := i + 1;
    }
    s := ClearCovers(State(c, masks, rows, cols), n);
    forall a, b | 0 <= a < n && 0 <= b < n && c[a][b] == 0
      ensures RowHasStar(s.masks, n, a) || ColHasStar(s.masks, n, b)
    {
      assert rows[a] || cols[b];
    }
    assert MarksOnZeros(s, n) by {
      forall a, b | 0 <= a < n && 0 <= b < n && s.masks[a][b] != Unmarked
        ensures s.costs[a][b] == 0
      {
        assert masks[a][b] == Starred;
      }
    }
  }

  /** Starring cell `(i, j)` changes that cell only. */
  lemma StarCell(m: Masks, n: nat, i: int, j: int)
    requires MasksShaped(m, n) && 0 <= i < n && 0 <= j < n
    ensures var m' := m[i := m[i][j := Starred]];
            && MasksShaped(m', n)
            && forall a, b :: 0 <= a < n && 0 <= b < n ==> m'[a][b] == if a == i && b == j then Starred else m[a][b]
  {
  }

  /** After starring `(i, j)`, every taken row, `i` included, holds a star. */
  lemma StarTakesRow(m: Masks, n: nat, rows: seq<bool>, i: int, j: int)
    requires MasksShaped(m, n) && |rows| == n && 0 <= i < n && 0 <= j < n
    requires forall a :: 0 <= a < n && rows[a] ==> RowHasStar(m, n, a)
    ensures RowHasStar(m[i := m[i][j := Starred]], n, i)
    ensures forall a :: 0 <= a < n && rows[a] ==> RowHasStar(m[i := m[i][j := Starred]], n, a)
  {
    var m' := m[i := m[i][j := Starred]];
    StarCell(m, n, i, j);
    assert m'[i][j] == Starred;
    forall a | 0 <= a < n && rows[a]
      ensures RowHasStar(m', n, a)
    {
      var b :| 0 <= b < n && m[a][b] == Starred;
      if a == i {
        assert m'[i][j] == Starred;
      } else {
        assert m'[a][b] == Starred;
      }
    }
  }

  /** After starring `(i, j)`, every taken column, `j` included, holds a star. */
  lemma StarTakesCol(m: Masks, n: nat, cols: seq<bool>, i: int, j: int)
    requires MasksShaped(m, n) && |cols| == n && 0 <= i < n && 0 <= j < n
    requires forall b :: 0 <= b < n && cols[b] ==> ColHasStar(m, n, b)
    ensures ColHasStar(m[i := m[i][j := Starred]], n, j)
    ensures forall b :: 0 <= b < n && cols[b] ==> ColHasStar(m[i := m[i][j := Starred]], n, b)
  {
    var m' := m[i := m[i][j := Starred]];
    StarCell(m, n, i, j);
    assert m'[i][j] == Starred;
    forall b | 0 <= b < n && cols[b]
      ensures ColHasStar(m', n, b)
    {
      var a :| 0 <= a < n && m[a][b] == Starred;
      if b == j {
        assert m'[i][j] == Starred;
      } else {
        assert m'[a][b] == Starred;
      }
    }
  }

  lemma StarKeepsTakenStarred(m: Masks, n: nat, rows: seq<bool>, cols: seq<bool>, i: int, j: int)
    requires MasksShaped(m, n) && |rows| == n && |cols| == n && 0 <= i < n && 0 <= j < n
    requires TakenStarred(m, rows, cols, n)
    ensures TakenStarred(m[i := m[i][j := Starred]], rows[i := true], cols[j := true], n)
  {
    var m' := m[i := m[i][j := Starred]];
    var rows', cols' := rows[i := true], cols[j := true];
    StarCell(m, n, i, j);
    StarTakesRow(m, n, rows, i, j);
    StarTakesCol(m, n, cols, i, j);
    forall a | 0 <= a < n && rows'[a]
      ensures RowHasStar(m', n, a)
    {
      if a != i {
        assert rows[a];
      }
    }
    forall b | 0 <= b < n && cols'[b]
      ensures ColHasStar(m', n, b)
    {
      if b != j {
        assert cols[b];
      }
    }
  }

  lemma StarKeepsStarsTaken(c: Matrix, m: Masks, n: nat, rows: seq<bool>, cols: seq<bool>, i: int, j: int)
    requires CostsShaped(c, n) && MasksShaped(m, n) && |rows| == n && |cols| == n
    requires StarsTaken(c, m, rows, cols, n) && 0 <= i < n && 0 <= j < n && c[i][j] == 0
    ensures StarsTaken(c, m[i := m[i][j := Starred]], rows[i := true], cols[j := true], n)
  {
    var m' := m[i := m[i][j := Starred]];
    var rows', cols' := rows[i := true], cols[j := true];
    forall a, b | 0 <= a < n && 0 <= b < n && m'[a][b] == Starred
      ensures c[a][b] == 0 && rows'[a] && cols'[b]
    {
      if a != i {
        assert m'[a] == m[a];
      } else if b != j {
        assert m'[a][b] == m[a][b];
      }
    }
  }

  /** Starring a free zero keeps the greedy pass's invariants. */
  lemma StarTakes(c: Matrix, m: Masks, n: nat, rows: seq<bool>, cols: seq<bool>, i: int, j: int)
    requires CostsShaped(c, n) && MasksShaped(m, n) && |rows| == n && |cols| == n
    requires NoPrimes(m, n) && StarsTaken(c, m, rows, cols, n) && TakenStarred(m, rows, cols, n)
    requires 0 <= i < n && 0 <= j < n && c[i][j] == 0
    ensures var m' := m[i := m[i][j := Starred]];
            && MasksShaped(m', n)
            && NoPrimes(m', n)
            && StarsTaken(c, m', rows[i := true], cols[j := true], n)
            && TakenStarred(m', rows[i := true], cols[j := true], n)
  {
    StarCell(m, n, i, j);
    StarKeepsStarsTaken(c, m, n, rows, cols, i, j);
    StarKeepsTakenStarred(m, n, rows, cols, i, j);
  }

  /** Starring a cell whose row and column hold no star keeps the stars a matching. */
  lemma StarKeepsMatching(m: Masks, n: nat, rows: seq<bool>, cols: seq<bool>, i: int, j: int)
    requires MasksShaped(m, n) && StarsMatching(m, n) && |rows| == n && |cols| == n
    requires forall a, b {:trigger m[a][b]} :: 0 <= a < n && 0 <= b < n && m[a][b] == Starred ==> rows[a] && cols[b]
    requires 0 <= i < n && 0 <= j < n && !rows[i] && !cols[j]
    ensures StarsMatching(m[i := m[i][j := Starred]], n)
  {
    var m' := m[i := m[i][j := Starred]];
    forall a, b | 0 <= a < n && 0 <= b < n
      ensures m'[a][b] == if a == i && b == j then Starred else m[a][b]
    {
    }
    forall a, b, k | 0 <= a < n && 0 <= b < n && 0 <= k < n && m'[a][b] == Starred && m'[a][k] == Starred
      ensures b == k
    {
      if a == i {
        assert m[i][b] != Starred && m[i][k] != Starred;
      }
    }
    forall a, k, b | 0 <= a < n && 0 <= k < n && 0 <= b < n && m'[a][b] == Starred && m'[k][b] == Starred
      ensures a == k
    {
      if b == j {
        assert m[a][j] != Starred && m[k][j] != Starred;
      }
    }
  }

  /** Step 1 leaves the stars' columns covered and no row covered: the covering invariants hold with an
      empty cover order. */
  lemma Step1GivesCovering(s: State, r: State, n: nat)
    requires Shaped(s, n) && Step1Ready(s, n) && Shaped(r, n)
    requires r.masks == s.masks && r.rowsCovered == s.rowsCovered
    requires forall j :: 0 <= j < n ==> (r.colsCovered[j] <==> ColHasStar(s.masks, n, j))
    ensures Covering(r, n, [])
  {
    forall i, j | 0 <= i < n && 0 <= j < n && r.masks[i][j] == Starred
      ensures r.rowsCovered[i] <==> !r.colsCovered[j]
    {
      assert ColHasStar(s.masks, n, j);
      assert !s.rowsCovered[i];
    }
    forall i, j | 0 <= i < n && 0 <= j < n
      ensures r.masks[i][j] != Primed
    {
      assert s.masks[i][j] != Primed;
    }
    forall i | 0 <= i < n
      ensures !r.rowsCovered[i]
    {
      assert !s.rowsCovered[i];
    }
  }

  /** With fewer starred columns than rows, some cell is neither in a covered row nor in a covered column. */
  lemma UncoveredCellExists(s: State, n: nat, order: seq<int>)
    requires Shaped(s, n) && StarsMatching(s.masks, n) && Covering(s, n, order)
    requires |StarCols(s.masks, n)| < n
    ensures UncoveredCell(s, n)
  {
    var i := UncoveredRow(s, n, order);
    var j := UncoveredColumn(s, n, order);
    assert !s.rowsCovered[i] && !s.colsCovered[j];
  }

  lemma UncoveredRow(s: State, n: nat, order: seq<int>) returns (i: int)
    requires Shaped(s, n) && StarsMatching(s.masks, n) && Covering(s, n, order)
    requires |StarCols(s.masks, n)| < n
    ensures 0 <= i < n && !s.rowsCovered[i]
  {
    assert CoverOrder(s, n, order);
    DistinctBelowBounded(order, n);
    if |order| == n {
      DistinctBelowOnto(order, n);
      forall a | 0 <= a < n
        ensures RowHasStar(s.masks, n, a)
      {
        assert a in order;
      }
      AllRowsStarredMeansAllColumns(s.masks, n);
    }
    assert |order| < n;
    i := RowNotIn(order, n);
    assert CoverOrder(s, n, order);
  }

  lemma UncoveredColumn(s: State, n: nat, order: seq<int>) returns (j: int)
    requires Shaped(s, n) && Covering(s, n, order)
    requires |StarCols(s.masks, n)| < n
    ensures 0 <= j < n && !s.colsCovered[j]
  {
    RangeCard(n);
    var missing := Range(n) - StarCols(s.masks, n);
    assert |missing| > 0 by {
      assert StarCols(s.masks, n) <= Range(n);
      assert missing + StarCols(s.masks, n) == Range(n);
    }
    var k :| k in missing;
    j := k;
  }

  /** A sequence of fewer than `n` distinct indices misses one below `n`. */
  lemma RowNotIn(order: seq<int>, n: nat) returns (i: int)
    requires Distinct(order) && |order| < n
    requires forall k :: 0 <= k < |order| ==> 0 <= order[k] < n
    ensures 0 <= i < n && i !in order
  {
    DistinctImageCard(order);
    RangeCard(n);
    var missing := Range(n) - Image(order);
    assert |missing| > 0 by {
      assert missing + Image(order) == Range(n);
    }
    var k :| k in missing;
    i := k;
  }

  /** If every row holds a star, the stars of a matching occupy every column. */
  lemma AllRowsStarredMeansAllColumns(m: Masks, n: nat)
    requires MasksShaped(m, n) && StarsMatching(m, n)
    requires forall i :: 0 <= i < n ==> RowHasStar(m, n, i)
    ensures |StarCols(m, n)| == n
  {
    var q := seq(n, i requires 0 <= i < n && RowHasStar(m, n, i) => StarColumn(m, n, i));
    assert Distinct(q);
    DistinctBelowOnto(q, n);
    forall j | 0 <= j < n
      ensures j in StarCols(m, n)
    {
      assert j in q;
      var i :| 0 <= i < n && q[i] == j;
      assert m[i][j] == Starred;
    }
    RangeCard(n);
    assert StarCols(m, n) == Range(n);
  }

  /** If every column holds a star, the stars of a matching occupy every row. */
  lemma AllColumnsStarredMeansAllRows(m: Masks, n: nat)
    requires MasksShaped(m, n) && StarsMatching(m, n)
    requires |StarCols(m, n)| == n
    ensures forall i :: 0 <= i < n ==> RowHasStar(m, n, i)
  {
    EveryColumnStarred(m, n);
    var q := StarRows(m, n);
    StarRowsDistinct(m, n, q);
    DistinctBelowOnto(q, n);
    forall i | 0 <= i < n
      ensures RowHasStar(m, n, i)
    {
      assert i in q;
      var j :| 0 <= j < n && q[j] == i;
      assert m[i][j] == Starred;
    }
  }

  lemma StarRowsDistinct(m: Masks, n: nat, q: seq<int>)
    requires MasksShaped(m, n) && StarsMatching(m, n) && |q| == n
    requires forall j :: 0 <= j < n ==> 0 <= q[j] < n && m[q[j]][j] == Starred
    ensures Distinct(q)
  {
  }

  ghost function StarColumn(m: Masks, n: nat, i: int): (j: int)
    requires MasksShaped(m, n) && 0 <= i < n && RowHasStar(m, n, i)
    ensures 0 <= j < n && m[i][j] == Starred
  {
    var j :| 0 <= j < n && m[i][j] == Starred; j
  }

  ghost function StarRow(m: Masks, n: nat, j: int): (i: int)
    requires MasksShaped(m, n) && 0 <= j < n && ColHasStar(m, n, j)
    ensures 0 <= i < n && m[i][j] == Starred
  {
    var i :| 0 <= i < n && m[i][j] == Starred; i
  }

  /** The row of each column's star, when every column holds one. */
  ghost function StarRows(m: Masks, n: nat): (q: seq<int>)
    requires MasksShaped(m, n) && forall j :: 0 <= j < n ==> ColHasStar(m, n, j)
    ensures |q| == n && forall j :: 0 <= j < n ==> 0 <= q[j] < n && m[q[j]][j] == Starred
  {
    seq(n, j requires 0 <= j < n => StarRow(m, n, j))
  }

  /** `n` starred columns out of `n` are all of them. */
  lemma EveryColumnStarred(m: Masks, n: nat)
    requires MasksShaped(m, n) && |StarCols(m, n)| == n
    ensures forall j :: 0 <= j < n ==> ColHasStar(m, n, j)
  {
    RangeCard(n);
    SubsetSameCard(StarCols(m, n), Range(n));
    forall j | 0 <= j < n
      ensures ColHasStar(m, n, j)
    {
      assert j in Range(n);
    }
  }

  /** The extraction loop of `FindAssignments`: each row's first starred column, or 0 when the row holds none. */
  method ExtractAssignment(masks: Masks, n: nat) returns (p: seq<int>)
    requires MasksShaped(masks, n)
    ensures |p| == n
    ensures forall i :: 0 <= i < n ==> 0 <= p[i] < n
    ensures forall i :: 0 <= i < n ==> (RowHasStar(masks, n, i) <==> masks[i][p[i]] == Starred)
    ensures forall i :: 0 <= i < n && !RowHasStar(masks, n, i) ==> p[i] == 0
  {
    p := [];
    var i := 0;
    while i < n
      invariant 0 <= i <= n && |p| == i
      invariant forall a :: 0 <= a < i ==> 0 <= p[a] < n
      invariant forall a :: 0 <= a < i ==> (RowHasStar(masks, n, a) <==> masks[a][p[a]] == Starred)
      invariant forall a :: 0 <= a < i && !RowHasStar(masks, n, a) ==> p[a] == 0
    {
      var col := FindStarInRow(masks, n, i);
      p := p + [if col == -1 then 0 else col];
      i := i + 1;
    }
  }

  /** The rank of a step in the termination measure: step 1 leads to step 2, step 2 with no uncovered zero
      to step 4, step 4 to step 2 with an uncovered zero, and step 2 to step 3. */
  ghost function StepRank(step: int, s: State, n: nat): nat
    requires Shaped(s, n)
  {
    if step == 1 then 4
    else if step == 2 then (if UncoveredZero(s, n) then 1 else 3)
    else if step == 4 then 2
    else 0
  }

  /** The invariant of the step loop. */
  ghost predicate StepInvariant(c0: Matrix, s: State, u: seq<int>, v: seq<int>, n: nat, step: int, order: seq<int>,
                                pathStart: Location)
  {
    && Core(c0, s, u, v, n)
    && (step == -1 || step == 1 || step == 2 || step == 3 || step == 4)
    && (step == 1 ==> Step1Ready(s, n) && order == [])
    && (step == 2 ==> Covering(s, n, order))
    && (step == 3 ==> Step3Ready(s, n, order, pathStart))
    && (step == 4 ==> Covering(s, n, order) && !UncoveredZero(s, n))
    && (step == 2 || step == 3 || step == 4 ==> |StarCols(s.masks, n)| < n)
    && (step == -1 ==> |StarCols(s.masks, n)| == n)
  }

  lemma OrderBounded(s: State, n: nat, order: seq<int>)
    requires Shaped(s, n) && CoverOrder(s, n, order)
    ensures |order| <= n
  {
    DistinctBelowBounded(order, n);
  }

  /** The step loop of `FindAssignments`: steps 1 to 4 until step 1 finds every column starred. */
  method RunSteps(s0: State, n: nat, ghost c0: Matrix, ghost u: seq<int>, ghost v: seq<int>)
    returns (s: State, ghost u': seq<int>, ghost v': seq<int>)
    requires Core(c0, s0, u, v, n) && Step1Ready(s0, n)
    ensures Core(c0, s, u', v', n)
    ensures forall i :: 0 <= i < n ==> RowHasStar(s.masks, n, i)
  {
    s, u', v' := s0, u, v;
    var step := 1;
    var pathStart := Location(0, 0);
    ghost var order: seq<int> := [];
    StarColsBounded(s.masks, n);
    while step != -1
      invariant StepInvariant(c0, s, u', v', n, step, order, pathStart)
      invariant |StarCols(s.masks, n)| <= n && |order| <= n
      decreases n - |StarCols(s.masks, n)|, n - |order|, StepRank(step, s, n)
    {
      ghost var before := StarCols(s.masks, n);
      if step == 1 {
        var r, next := RunStep1(s, n);
        Step1GivesCovering(s, r, n);
        s, step := r, next;
      } else if step == 2 {
        ghost var s1, o1 := s, order;
        var r, next, start, order2 := RunStep2(s, n, pathStart, c0, u', v', order);
        SameStarsSameStarCols(r.masks, s.masks, n);
        s, step, pathStart, order := r, next, start, order2;
        if step == 4 && |order| == |o1| {
          assert s == s1;
        }
      } else if step == 3 {
        var r, next, pathLength := RunStep3(s, n, pathStart, c0, u', v', order);
        s, step, order := r, next, [];
        StarColsBounded(s.masks, n);
      } else {
        assert step == 4;
        UncoveredCellExists(s, n, order);
        var r, next, minValue, u2, v2 := RunStep4(s, n, c0, u', v', order);
        s, step, u', v' := r, next, u2, v2;
      }
      if step == 2 || step == 4 {
        OrderBounded(s, n, order);
      } else if step == 3 {
        assert CoverOrder(s, n, order);
        OrderBounded(s, n, order);
      }
    }
    AllColumnsStarredMeansAllRows(s.masks, n);
  }

  /** `FindAssignments` on a square matrix (its only caller pads the matrix to a square; with more rows
      than columns step 1 of the code can never report every row covered and the loop does not end):
      a null matrix is an `ArgumentNullException`; otherwise the result gives every row its
      own column, with minimal total cost (`Min`) or maximal total cost (`Max`). `reduced` is what the call
      leaves in the caller's matrix: non-negative, and zero at every assigned cell. */
  method FindAssignments(costs: Option<Matrix>, e: Extremum) returns (r: Result<seq<int>>, reduced: Matrix)
    requires costs.Some? ==> IsSquare(costs.value)
    ensures costs.None? <==> r.Failure?
    ensures r.Failure? ==> r.error == ArgumentNull
    ensures r.Success? ==> Optimal(costs.value, r.value, e)
    ensures r.Success? ==> |r.value| == |costs.value| && CostsShaped(reduced, |costs.value|)
    ensures r.Success? ==> NonNegative(reduced, |costs.value|)
    ensures r.Success? ==> forall i :: 0 <= i < |costs.value| ==> reduced[i][r.value[i]] == 0
  {
    if costs.None? {
      return Failure(ArgumentNull), [];
    }
    var m := costs.value;
    var n := |m|;
    ghost var c0 := Oriented(m, e);
    var c, u := ReduceRows(m, e);
    var s0 := StarZeros(c, n);
    var s, u', v' := RunSteps(s0, n, c0, u, Zeros(n));
    var p := ExtractAssignment(s.masks, n);
    assert IsPermutation(p, n) by {
      forall a, b | 0 <= a < b < n
        ensures p[a] != p[b]
      {
        assert s.masks[a][p[a]] == Starred && s.masks[b][p[b]] == Starred;
      }
    }
    forall i | 0 <= i < n
      ensures s.costs[i][p[i]] == 0
    {
      assert s.masks[i][p[i]] == Starred;
    }
    ZeroPermutationIsOptimal(c0, s.costs, u', v', p);
    if e == Max {
      MaxIsMinOfNegation(m, p);
    }
    r := Success(p);
    reduced := s.costs;
  }
}
