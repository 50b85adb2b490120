/** The averaging of `FilterAvgCoefficientAndOrderResults`: LINQ's `OrderByDescending`, `Take` and
    `Average` over a person's coefficients, on exact reals. */
module Ranking {
  import opened Wrappers

  /** Non-increasing order. */
  predicate SortedDesc(s: seq<real>) {
    forall i, j :: 0 <= i < j < |s| ==> s[i] >= s[j]
  }

  /** A value no smaller than the head of a non-increasing sequence can go in front of it. */
  lemma ConsSorted(h: real, t: seq<real>)
    requires SortedDesc(t) && (t != [] ==> h >= t[0])
    ensures SortedDesc([h] + t)
  {
    forall i, j | 0 <= i < j < |[h] + t|
      ensures ([h] + t)[i] >= ([h] + t)[j]
    {
      if i == 0 && 1 < j {
        assert t[0] >= t[j - 1];
      }
    }
  }

  /** Inserts `x` before the first element it is not smaller than. */
  function Insert(x: real, s: seq<real>): (r: seq<real>)
    requires SortedDesc(s)
    ensures SortedDesc(r) && multiset(r) == multiset(s) + multiset{x} && |r| == |s| + 1
    ensures r[0] == x || (s != [] && r[0] == s[0])
    decreases |s|
  {
    if s == [] || x >= s[0] then
      ConsSorted(x, s);
      [x] + s
    else
      assert s == [s[0]] + s[1..];
      var t := Insert(x, s[1..]);
      ConsSorted(s[0], t);
      [s[0]] + t
  }

  /** `OrderByDescending(c => c)`: the same values, largest first. */
  function SortDesc(s: seq<real>): (r: seq<real>)
    ensures SortedDesc(r) && multiset(r) == multiset(s) && |r| == |s|
    decreases |s|
  {
    if s == [] then []
    else
      assert s == [s[0]] + s[1..];
      Insert(s[0], SortDesc(s[1..]))
  }

  /** The head of a non-increasing sequence is at least every value it holds. */
  lemma HeadIsLargest(a: seq<real>, x: real)
    requires SortedDesc(a) && x in multiset(a)
    ensures a[0] >= x
  {
    var i :| 0 <= i < |a| && a[i] == x;
  }

  /** Removing the head leaves the rest of the values, still in order. */
  lemma SplitHead(a: seq<real>)
    requires SortedDesc(a) && a != []
    ensures multiset(a[1..]) == multiset(a) - multiset{a[0]}
    ensures SortedDesc(a[1..])
  {
    assert a == [a[0]] + a[1..];
  }

  lemma SameHeadSameTail(a: seq<real>, b: seq<real>)
    requires a != [] && b != [] && a[0] == b[0] && a[1..] == b[1..]
    ensures a == b
  {
    assert a == [a[0]] + a[1..] && b == [b[0]] + b[1..];
  }

  /** Two non-increasing sequences holding the same values are equal: the sorted order of a multiset
      is unique, whatever order the values were enumerated in. */
  lemma {:induction false} SortedUnique(a: seq<real>, b: seq<real>)
    requires SortedDesc(a) && SortedDesc(b) && multiset(a) == multiset(b)
    ensures a == b
    decreases |a|
  {
    assert |a| == |multiset(a)| == |b|;
    if a != [] {
      HeadIsLargest(a, b[0]);
      HeadIsLargest(b, a[0]);
      SplitHead(a);
      SplitHead(b);
      SortedUnique(a[1..], b[1..]);
      SameHeadSameTail(a, b);
    }
  }

  function Sum(s: seq<real>): real
    decreases |s|
  {
    if s == [] then 0.0 else s[0] + Sum(s[1..])
  }

  lemma {:induction false} SumInsert(x: real, s: seq<real>)
    requires SortedDesc(s)
    ensures Sum(Insert(x, s)) == x + Sum(s)
    decreases |s|
  {
    if s != [] && x < s[0] {
      SumInsert(x, s[1..]);
    }
  }

  /** Sorting keeps the total. */
  lemma {:induction false} SumSortDesc(s: seq<real>)
    ensures Sum(SortDesc(s)) == Sum(s)
    decreases |s|
  {
    if s != [] {
      SumSortDesc(s[1..]);
      SumInsert(s[0], SortDesc(s[1..]));
    }
  }

  /** `Average`: the mean, or `InvalidOperationException` for no values. */
  function Mean(s: seq<real>): (r: Result<real>)
    ensures r.Failure? <==> s == []
    ensures r.Failure? ==> r.error == InvalidOperation
    ensures r.Success? ==> r.value * |s| as real == Sum(s)
  {
    if s == [] then Failure(InvalidOperation) else Success(Sum(s) / |s| as real)
  }

  /** `OrderByDescending(c).Take(k)`: the `k` largest values (all of them when there are fewer),
      largest first. */
  function Top(s: seq<real>, k: nat): (r: seq<real>)
    ensures |r| == if k < |s| then k else |s|
    ensures SortedDesc(r)
  {
    SortDesc(s)[..if k < |s| then k else |s|]
  }

  lemma TakeDrop(t: seq<real>, m: nat)
    requires m <= |t|
    ensures multiset(t) == multiset(t[..m]) + multiset(t[m..])
  {
    assert t == t[..m] + t[m..];
  }

  /** The values `Top` takes are values of the input, and none it leaves out is larger than one it
      takes. */
  lemma TopIsLargest(s: seq<real>, k: nat)
    ensures multiset(Top(s, k)) <= multiset(s)
    ensures forall y, i :: y in multiset(s) - multiset(Top(s, k)) && 0 <= i < |Top(s, k)| ==>
              Top(s, k)[i] >= y
  {
    var m := |Top(s, k)|;
    var t := SortDesc(s);
    TakeDrop(t, m);
    forall y, i | y in multiset(s) - multiset(Top(s, k)) && 0 <= i < m
      ensures Top(s, k)[i] >= y
    {
      assert y in multiset(t[m..]);
      var j :| 0 <= j < |t[m..]| && t[m..][j] == y;
      assert t[m + j] == y;
    }
  }

  /** `OrderByDescending(c).Take(k).Average()`. */
  function TopMean(s: seq<real>, k: nat): (r: Result<real>)
    ensures r.Failure? <==> s == [] || k == 0
    ensures r.Failure? ==> r.error == InvalidOperation
  {
    Mean(Top(s, k))
  }

  /** Both averages depend only on the values, not on the order they are enumerated in. */
  lemma AveragesIgnoreOrder(a: seq<real>, b: seq<real>, k: nat)
    requires multiset(a) == multiset(b)
    ensures TopMean(a, k) == TopMean(b, k)
    ensures Mean(a) == Mean(b)
  {
    SortedUnique(SortDesc(a), SortDesc(b));
    SumSortDesc(a);
    SumSortDesc(b);
    assert |a| == |multiset(a)| == |b|;
  }

  /** Taking at least as many values as there are is averaging all of them. */
  lemma TopMeanOfAll(s: seq<real>, k: nat)
    requires k >= |s|
    ensures TopMean(s, k) == Mean(s)
  {
    assert SortDesc(s)[..|s|] == SortDesc(s);
    SumSortDesc(s);
  }
}
