/** `HungarianBestMatch` and `ArrayOfDictionariesToMatrix`: the coefficients each name slot received
    from the input words become an integer matrix (scaled by 10 000), and the maximum-total assignment
    of slots to input words picks one coefficient per slot. */
module BestMatch {
  import opened Wrappers
  import opened HungarianSpec
  import HungarianAlgorithm

  /** The matches of one name slot: input word index -> coefficient (`Dictionary<int, double>`). */
  type SlotMatches = map<nat, real>

  /** The scale of the integer matrix. */
  const Scale: real := 10000.0

  /** The `(int)` cast of a `double`: truncation toward zero. */
  function Truncate(x: real): (r: int)
    ensures x >= 0.0 ==> r >= 0 && r as real <= x < r as real + 1.0
    ensures x < 0.0 ==> r <= 0 && r as real - 1.0 < x <= r as real
  {
    if x >= 0.0 then x.Floor else -((-x).Floor)
  }

  /** The largest element, picked by removing elements one at a time. */
  ghost function LargestOf(s: set<nat>): (r: nat)
    requires s != {}
    ensures r in s && forall x :: x in s ==> x <= r
    decreases |s|
  {
    var y :| y in s;
    assert forall x :: x in s ==> x == y || x in s - {y};
    if s - {y} == {} then y
    else
      var m := LargestOf(s - {y});
      if y > m then y else m
  }

  /** `Keys.Max()`. */
  function MaxKey(s: set<nat>): (r: nat)
    requires s != {}
    ensures r in s && forall x :: x in s ==> x <= r
  {
    assert LargestOf(s) in s;
    var m :| m in s && forall x :: x in s ==> x <= m;
    m
  }

  /** `d.Count > 0 ? d.Keys.Max() : 0`. */
  function LargestKey(d: SlotMatches): (r: nat)
    ensures forall k :: k in d ==> k <= r
    ensures d != map[] ==> r in d
    ensures d == map[] ==> r == 0
  {
    if d == map[] then 0
    else
      assert exists k :: k in d.Keys;
      MaxKey(d.Keys)
  }

  /** `coefficients.Max(d => ...) + 1`: one more than the largest key of any row; `Max` of no rows
      throws `InvalidOperationException`. */
  function Columns(cs: seq<SlotMatches>): (r: Result<nat>)
    ensures r.Failure? <==> cs == []
    ensures r.Failure? ==> r.error == InvalidOperation
    ensures r.Success? ==> forall i, k :: 0 <= i < |cs| && k in cs[i] ==> k < r.value
    ensures r.Success? ==> exists i :: 0 <= i < |cs| && r.value == LargestKey(cs[i]) + 1
    decreases |cs|
  {
    if cs == [] then Failure(InvalidOperation)
    else if |cs| == 1 then Success(LargestKey(cs[0]) + 1)
    else
      var rest := Columns(cs[1..]).value;
      assert forall i :: 1 <= i < |cs| ==> cs[i] == cs[1..][i - 1];
      Success(if LargestKey(cs[0]) + 1 >= rest then LargestKey(cs[0]) + 1 else rest)
  }

  /** The cell of slot row `i` and input word column `j`: the scaled coefficient, 0 when the word did not
      match the slot. */
  function Cell(d: SlotMatches, j: nat): int {
    if j in d then Truncate(d[j] * Scale) else 0
  }

  /** The square matrix of side `|cs|`. */
  function Grid(cs: seq<SlotMatches>): (m: Matrix)
    ensures |m| == |cs| && IsSquare(m)
    ensures forall i, j :: 0 <= i < |cs| && 0 <= j < |cs| ==> m[i][j] == Cell(cs[i], j)
  {
    seq(|cs|, i requires 0 <= i < |cs| => seq(|cs|, j requires 0 <= j < |cs| => Cell(cs[i], j)))
  }

  /** `ArrayOfDictionariesToMatrix`: the side is the larger of the row count and the column count.
      When the columns outnumber the rows, filling reads a row past the end of the array and throws. */
  function ArrayOfDictionariesToMatrix(cs: seq<SlotMatches>): (r: Result<Matrix>)
    ensures cs == [] ==> r == Failure(InvalidOperation)
    ensures cs != [] ==> (r.Success? <==> forall i, k :: 0 <= i < |cs| && k in cs[i] ==> k < |cs|)
    ensures cs != [] && r.Failure? ==> r.error == IndexOutOfRange
    ensures r.Success? ==> |r.value| == |cs| && IsSquare(r.value)
    ensures r.Success? ==> forall i, j :: 0 <= i < |cs| && 0 <= j < |cs| ==> r.value[i][j] == Cell(cs[i], j)
  {
    match Columns(cs)
    case Failure(e) => Failure(e)
    case Success(cols) =>
      var side := if |cs| >= cols then |cs| else cols;
      if side > |cs| then
        var i :| 0 <= i < |cs| && cols == LargestKey(cs[i]) + 1;
        assert cs[i] != map[] ==> LargestKey(cs[i]) in cs[i] && LargestKey(cs[i]) >= |cs|;
        Failure(IndexOutOfRange)
      else
        Success(Grid(cs))
  }

  /** The coefficient an assignment `p` gives each row: the matched coefficient, or 0. */
  function Chosen(cs: seq<SlotMatches>, p: seq<int>): (r: map<nat, real>)
    requires |p| == |cs|
    ensures forall i :: i in r <==> 0 <= i < |cs|
  {
    map i: nat | i < |cs| :: if 0 <= p[i] && p[i] in cs[i] then cs[i][p[i]] else 0.0
  }

  /** What `HungarianBestMatch` returns: the coefficients of a maximum-total assignment of the matrix. */
  ghost predicate IsBestMatch(cs: seq<SlotMatches>, best: map<nat, real>) {
    var m := ArrayOfDictionariesToMatrix(cs);
    && m.Success?
    && exists p :: Optimal(m.value, p, Max) && best == Chosen(cs, p)
  }

  /** `HungarianBestMatch`: builds the matrix, maximises, and reads each row's coefficient at its
      assigned column (0 when that cell was absent). */
  method HungarianBestMatch(cs: seq<SlotMatches>) returns (r: Result<map<nat, real>>)
    ensures r.Success? <==> ArrayOfDictionariesToMatrix(cs).Success?
    ensures r.Failure? ==> r.error == ArrayOfDictionariesToMatrix(cs).error
    ensures r.Success? ==> IsBestMatch(cs, r.value)
  {
    var matrix := ArrayOfDictionariesToMatrix(cs);
    if matrix.Failure? {
      return Failure(matrix.error);
    }
    var result, _ := HungarianAlgorithm.FindAssignments(Some(matrix.value), Max);
    var p := result.value;
    var best: map<nat, real> := map[];
    for i := 0 to |p|
      invariant forall k :: k in best <==> 0 <= k < i
      invariant forall k :: 0 <= k < i ==> best[k] == Chosen(cs, p)[k]
    {
      best := best[i := if p[i] in cs[i] then cs[i][p[i]] else 0.0];
    }
    assert best == Chosen(cs, p);
    return Success(best);
  }

  /** The scaled total of the chosen coefficients is the matrix cost of the assignment, so no other
      assignment of slots to input words reaches a larger scaled total. */
  function ScaledTotal(best: map<nat, real>, n: nat): int
    requires forall i :: 0 <= i < n ==> i in best
  {
    if n == 0 then 0 else ScaledTotal(best, n - 1) + Truncate(best[n - 1] * Scale)
  }

  lemma {:induction false} ScaledTotalIsCost(cs: seq<SlotMatches>, m: Matrix, p: seq<int>, n: nat)
    requires |m| == |cs| && IsSquare(m)
    requires forall i, j :: 0 <= i < |cs| && 0 <= j < |cs| ==> m[i][j] == Cell(cs[i], j)
    requires IsPermutation(p, |cs|) && n <= |cs|
    ensures InColumns(m, p[..n])
    ensures ScaledTotal(Chosen(cs, p), n) == Cost(m, p[..n])
  {
    if n > 0 {
      ScaledTotalIsCost(cs, m, p, n - 1);
      assert p[..n][..n - 1] == p[..n - 1];
      assert Truncate(0.0 * Scale) == 0;
    }
  }

  lemma BestMatchIsMaximal(cs: seq<SlotMatches>, best: map<nat, real>, q: seq<int>)
    requires IsBestMatch(cs, best)
    requires IsPermutation(q, |cs|)
    ensures ScaledTotal(best, |cs|) >= ScaledTotal(Chosen(cs, q), |cs|)
  {
    var m := ArrayOfDictionariesToMatrix(cs).value;
    var p :| Optimal(m, p, Max) && best == Chosen(cs, p);
    ScaledTotalIsCost(cs, m, p, |cs|);
    ScaledTotalIsCost(cs, m, q, |cs|);
    assert p[..|cs|] == p && q[..|cs|] == q;
  }

  // ---------------------------------------------------------------------------------------------
  // The 5 x 5 case of the unit tests

  const CaseInput: seq<SlotMatches> := [
    map[0 := 0.2, 1 := 0.18, 3 := 0.22, 4 := 0.22],
    map[0 := 0.22, 1 := 0.2, 3 := 1.0, 4 := 1.0],
    map[0 := 0.18, 1 := 1.0, 3 := 0.2, 4 := 0.2],
    map[0 := 0.22, 1 := 0.2, 3 := 1.0, 4 := 1.0],
    map[2 := 1.0]
  ]

  const CaseExpected: map<nat, real> := map[0 := 0.2, 1 := 1.0, 2 := 1.0, 3 := 1.0, 4 := 1.0]

  /** The scaled matrix of the case. */
  const CaseMatrix: Matrix := [
    [2000, 1800, 0, 2200, 2200],
    [2200, 2000, 0, 10000, 10000],
    [1800, 10000, 0, 2000, 2000],
    [2200, 2000, 0, 10000, 10000],
    [0, 0, 10000, 0, 0]
  ]

  /** Row and column potentials bounding every cell from above, and the slack they leave. */
  const CaseRows: seq<int> := [2000, 9700, 10000, 9700, 10000]
  const CaseCols: seq<int> := [0, 0, 0, 300, 300]
  const CaseSlack: Matrix := [
    [0, 200, 2000, 100, 100],
    [7500, 7700, 9700, 0, 0],
    [8200, 0, 10000, 8300, 8300],
    [7500, 7700, 9700, 0, 0],
    [10000, 10000, 0, 10300, 10300]
  ]

  lemma CaseRow0()
    ensures forall k :: k in CaseInput[0] ==> k < 5
    ensures forall j :: 0 <= j < 5 ==> Cell(CaseInput[0], j) == CaseMatrix[0][j]
  {
    var d := CaseInput[0];
  }

  lemma CaseRow1()
    ensures forall k :: k in CaseInput[1] ==> k < 5
    ensures forall j :: 0 <= j < 5 ==> Cell(CaseInput[1], j) == CaseMatrix[1][j]
  {
    var d := CaseInput[1];
  }

  lemma CaseRow2()
    ensures forall k :: k in CaseInput[2] ==> k < 5
    ensures forall j :: 0 <= j < 5 ==> Cell(CaseInput[2], j) == CaseMatrix[2][j]
  {
    var d := CaseInput[2];
  }

  lemma CaseRow3()
    ensures forall k :: k in CaseInput[3] ==> k < 5
    ensures forall j :: 0 <= j < 5 ==> Cell(CaseInput[3], j) == CaseMatrix[3][j]
  {
    var d := CaseInput[3];
  }

  lemma CaseRow4()
    ensures forall k :: k in CaseInput[4] ==> k < 5
    ensures forall j :: 0 <= j < 5 ==> Cell(CaseInput[4], j) == CaseMatrix[4][j]
  {
    var d := CaseInput[4];
  }

  /** A square matrix with the right cells is the one `ArrayOfDictionariesToMatrix` builds. */
  lemma MatrixOf(cs: seq<SlotMatches>, m: Matrix)
    requires cs != [] && |m| == |cs| && IsSquare(m)
    requires forall i, k :: 0 <= i < |cs| && k in cs[i] ==> k < |cs|
    requires forall i, j :: 0 <= i < |cs| && 0 <= j < |cs| ==> m[i][j] == Cell(cs[i], j)
    ensures ArrayOfDictionariesToMatrix(cs) == Success(m)
  {
    var r := ArrayOfDictionariesToMatrix(cs).value;
    forall i | 0 <= i < |cs|
      ensures r[i] == m[i]
    {
      assert |r[i]| == |cs| == |m[i]|;
      assert forall j :: 0 <= j < |cs| ==> r[i][j] == m[i][j];
    }
    assert r == m;
  }

  lemma CaseMatrixIsBuilt()
    ensures ArrayOfDictionariesToMatrix(CaseInput) == Success(CaseMatrix)
  {
    CaseRow0(); CaseRow1(); CaseRow2(); CaseRow3(); CaseRow4();
    MatrixOf(CaseInput, CaseMatrix);
  }

  lemma {:induction false} ZeroCostOnlyOnZeros(c: Matrix, p: seq<int>)
    requires InColumns(c, p)
    requires forall i, j :: 0 <= i < |c| && 0 <= j < |c[i]| ==> c[i][j] >= 0
    requires Cost(c, p) <= 0
    ensures forall i :: 0 <= i < |p| ==> c[i][p[i]] == 0
    decreases |p|
  {
    if p != [] {
      CostNonNegative(c, p[..|p| - 1]);
      ZeroCostOnlyOnZeros(c, p[..|p| - 1]);
    }
  }

  function NegateAll(u: seq<int>): (r: seq<int>)
    ensures |r| == |u| && forall i :: 0 <= i < |u| ==> r[i] == -u[i]
  {
    seq(|u|, i requires 0 <= i < |u| => -u[i])
  }

  /** Cost plus slack is the same on every permutation: the sum of the potentials. */
  lemma CostPlusSlack(m: Matrix, c: Matrix, u: seq<int>, v: seq<int>, q: seq<int>)
    requires IsSquare(m) && IsSquare(c) && |c| == |m| == |u| == |v|
    requires forall i, j :: 0 <= i < |m| && 0 <= j < |m| ==> c[i][j] == u[i] + v[j] - m[i][j]
    requires IsPermutation(q, |m|)
    ensures Cost(m, q) + Cost(c, q) == -(Sum(NegateAll(u)) + Sum(NegateAll(v)))
  {
    var u', v' := NegateAll(u), NegateAll(v);
    var m' := Negate(m);
    assert IsSquare(m');
    assert forall i, j :: 0 <= i < |m| && 0 <= j < |m| ==> m'[i][j] == c[i][j] + u'[i] + v'[j];
    CostWithPotentials(m', c, u', v', q);
    CostOfNegation(m, q);
  }

  /** The certificate for maximisation: when row potentials `u` and column potentials `v` bound every
      cell from above with slack `c`, and some permutation uses only cells without slack, then every
      maximum-total permutation uses only cells without slack. */
  lemma OptimumIsTight(m: Matrix, c: Matrix, u: seq<int>, v: seq<int>, star: seq<int>, p: seq<int>)
    requires IsSquare(m) && IsSquare(c) && |c| == |m| == |u| == |v|
    requires forall i, j :: 0 <= i < |m| && 0 <= j < |m| ==> c[i][j] == u[i] + v[j] - m[i][j]
    requires forall i, j :: 0 <= i < |c| && 0 <= j < |c[i]| ==> c[i][j] >= 0
    requires IsPermutation(star, |m|) && forall i :: 0 <= i < |m| ==> c[i][star[i]] == 0
    requires Optimal(m, p, Max)
    ensures forall i :: 0 <= i < |m| ==> c[i][p[i]] == 0
  {
    CostPlusSlack(m, c, u, v, star);
    CostPlusSlack(m, c, u, v, p);
    CostZero(c, star);
    assert Cost(m, p) >= Cost(m, star);
    ZeroCostOnlyOnZeros(c, p);
  }

  /** Every maximum-total assignment of the case sends row 0 to column 0, row 2 to column 1, row 4 to
      column 2, and rows 1 and 3 to columns 3 and 4. */
  lemma CaseOptimumShape(p: seq<int>)
    requires Optimal(CaseMatrix, p, Max)
    ensures p[0] == 0 && p[2] == 1 && p[4] == 2 && 3 <= p[1] <= 4 && 3 <= p[3] <= 4
  {
    var star := [0, 3, 1, 4, 2];
    OptimumIsTight(CaseMatrix, CaseSlack, CaseRows, CaseCols, star, p);
    assert CaseSlack[0][p[0]] == 0 && CaseSlack[1][p[1]] == 0 && CaseSlack[2][p[2]] == 0;
    assert CaseSlack[3][p[3]] == 0 && CaseSlack[4][p[4]] == 0;
  }

  lemma CaseChosen(p: seq<int>)
    requires |p| == 5 && p[0] == 0 && p[2] == 1 && p[4] == 2 && 3 <= p[1] <= 4 && 3 <= p[3] <= 4
    ensures Chosen(CaseInput, p) == CaseExpected
  {
    var c := Chosen(CaseInput, p);
    assert p[0] in CaseInput[0] && p[1] in CaseInput[1] && p[2] in CaseInput[2];
    assert p[3] in CaseInput[3] && p[4] in CaseInput[4];
    assert c[0] == 0.2 && c[1] == 1.0 && c[2] == 1.0 && c[3] == 1.0 && c[4] == 1.0;
    assert c.Keys == CaseExpected.Keys;
  }

  /** `HungarianBestMatch_ShouldReturnExpectedResults`: row 0 keeps its 0.2 and every other row gets 1,
      whichever optimum the solver reaches. */
  method HungarianBestMatchCase() returns (r: Result<map<nat, real>>)
    ensures r == Success(CaseExpected)
  {
    CaseMatrixIsBuilt();
    r := HungarianBestMatch(CaseInput);
    ghost var p :| Optimal(CaseMatrix, p, Max) && r.value == Chosen(CaseInput, p);
    CaseOptimumShape(p);
    CaseChosen(p);
  }
}
