/** The last stage of both searchers: the coefficients of a person's result map, enumerated in some
    order, and LINQ's stable `OrderByDescending` on the per-person averages. */
module ResultOrdering {
  // ---------------------------------------------------------------------------------------------
  // Enumerating a map's values

  /** The values of `m` under `f`, in one fixed order. Dictionary enumeration order is unspecified;
      every order holds the same multiset of values (`EnumerateRemove`), and the averages depend on the
      multiset only (`Ranking.AveragesIgnoreOrder`). */
  ghost function Enumerate<K(!new), V>(m: map<K, V>, f: V -> real): seq<real>
    decreases |m|
  {
    if m == map[] then []
    else
      var k :| k in m;
      assert |m - {k}| < |m| by { assert (m - {k}).Keys == m.Keys - {k}; }
      [f(m[k])] + Enumerate(m - {k}, f)
  }

  lemma Smaller<K(!new), V>(m: map<K, V>, k: K)
    requires k in m
    ensures (m - {k}).Keys == m.Keys - {k}
    ensures |m - {k}| == |m| - 1
  {
    assert (m - {k}).Keys == m.Keys - {k};
  }

  /** One value per entry. */
  lemma {:induction false} EnumerateSize<K(!new), V>(m: map<K, V>, f: V -> real)
    ensures |Enumerate(m, f)| == |m|
    decreases |m|
  {
    if m != map[] {
      var k :| k in m && Enumerate(m, f) == [f(m[k])] + Enumerate(m - {k}, f);
      Smaller(m, k);
      EnumerateSize(m - {k}, f);
    }
  }

  /** Whichever key is enumerated first, the values form the same multiset. */
  lemma {:induction false} EnumerateRemove<K(!new), V>(m: map<K, V>, k: K, f: V -> real)
    requires k in m
    ensures multiset(Enumerate(m, f)) == multiset{f(m[k])} + multiset(Enumerate(m - {k}, f))
    decreases |m|
  {
    var k' :| k' in m && Enumerate(m, f) == [f(m[k'])] + Enumerate(m - {k'}, f);
    if k' != k {
      Smaller(m, k);
      Smaller(m, k');
      EnumerateRemove(m - {k'}, k, f);
      EnumerateRemove(m - {k}, k', f);
      assert m - {k'} - {k} == m - {k} - {k'};
    }
  }

  /** Enumerates the values of `m` under `f` (the `Select` over a dictionary's entries). */
  method Values<K(==,!new), V>(m: map<K, V>, f: V -> real) returns (cs: seq<real>)
    ensures multiset(cs) == multiset(Enumerate(m, f))
    ensures |cs| == |m|
  {
    cs := [];
    var rest := m;
    while rest != map[]
      invariant multiset(cs) + multiset(Enumerate(rest, f)) == multiset(Enumerate(m, f))
      invariant |cs| + |rest| == |m|
      decreases |rest|
    {
      var k :| k in rest;
      EnumerateRemove(rest, k, f);
      Smaller(rest, k);
      cs := cs + [f(rest[k])];
      rest := rest - {k};
    }
  }

  // ---------------------------------------------------------------------------------------------
  // Ordering by average

  /** A result paired with its average coefficient. */
  datatype Scored<T> = Scored(item: T, avg: real)

  /** Non-increasing order of averages. */
  predicate SortedByAverage<T>(s: seq<Scored<T>>) {
    forall i, j :: 0 <= i < j < |s| ==> s[i].avg >= s[j].avg
  }

  /** No element occurs twice. */
  predicate NoDup<T(==)>(s: seq<T>) {
    forall i, j :: 0 <= i < j < |s| ==> s[i] != s[j]
  }

  lemma ConsSortedByAverage<T>(h: Scored<T>, t: seq<Scored<T>>)
    requires SortedByAverage(t) && (t != [] ==> h.avg >= t[0].avg)
    ensures SortedByAverage([h] + t)
  {
    forall i, j | 0 <= i < j < |[h] + t|
      ensures ([h] + t)[i].avg >= ([h] + t)[j].avg
    {
      if i == 0 && 1 < j {
        assert t[0].avg >= t[j - 1].avg;
      }
    }
  }

  lemma ConsNoDup<T>(h: T, t: seq<T>)
    requires NoDup(t) && h !in t
    ensures NoDup([h] + t)
  {
    forall i, j | 0 <= i < j < |[h] + t|
      ensures ([h] + t)[i] != ([h] + t)[j]
    {
      if i == 0 {
        assert ([h] + t)[j] == t[j - 1];
      }
    }
  }

  /** Places `x` after every element whose average is not smaller, so equal averages keep their order. */
  function InsertByAverage<T(==)>(x: Scored<T>, s: seq<Scored<T>>): (r: seq<Scored<T>>)
    requires SortedByAverage(s)
    ensures SortedByAverage(r) && multiset(r) == multiset(s) + multiset{x} && |r| == |s| + 1
    ensures r[0] == x || (s != [] && r[0] == s[0])
    decreases |s|
  {
    if s == [] || x.avg > s[0].avg then
      ConsSortedByAverage(x, s);
      [x] + s
    else
      assert s == [s[0]] + s[1..];
      var t := InsertByAverage(x, s[1..]);
      ConsSortedByAverage(s[0], t);
      [s[0]] + t
  }

  /** `OrderByDescending(x => x.AvgCoefficient)`: the elements in enumeration order, each inserted
      after the ones it does not beat. */
  function SortByAverage<T(==)>(s: seq<Scored<T>>): (r: seq<Scored<T>>)
    ensures SortedByAverage(r) && multiset(r) == multiset(s) && |r| == |s|
    decreases |s|
  {
    if s == [] then []
    else
      assert s == s[..|s| - 1] + [s[|s| - 1]];
      InsertByAverage(s[|s| - 1], SortByAverage(s[..|s| - 1]))
  }

  /** An element occurring twice occurs at least twice in the multiset. */
  lemma TwiceInMultiset<T>(s: seq<T>, i: nat, j: nat)
    requires i < j < |s| && s[i] == s[j]
    ensures multiset(s)[s[i]] >= 2
  {
    assert s == s[..i] + [s[i]] + s[i + 1..j] + [s[j]] + s[j + 1..];
  }

  /** Without duplicates, every element occurs once. */
  lemma {:induction false} OnceInMultiset<T>(s: seq<T>, x: T)
    requires NoDup(s)
    ensures multiset(s)[x] <= 1
    decreases |s|
  {
    if s != [] {
      assert s == [s[0]] + s[1..];
      assert NoDup(s[1..]) by {
        forall i, j | 0 <= i < j < |s[1..]|
          ensures s[1..][i] != s[1..][j]
        {
          assert s[1..][i] == s[i + 1] && s[1..][j] == s[j + 1];
        }
      }
      OnceInMultiset(s[1..], x);
      assert s[0] !in s[1..] by {
        assert forall j :: 0 <= j < |s[1..]| ==> s[1..][j] == s[j + 1];
      }
    }
  }

  /** Having no duplicates depends on the multiset only, so any reordering keeps it. */
  lemma PermutationKeepsNoDup<T>(s: seq<T>, t: seq<T>)
    requires NoDup(s) && multiset(s) == multiset(t)
    ensures NoDup(t)
  {
    forall i, j | 0 <= i < j < |t|
      ensures t[i] != t[j]
    {
      if t[i] == t[j] {
        TwiceInMultiset(t, i, j);
        OnceInMultiset(s, t[i]);
      }
    }
  }

  // ---------------------------------------------------------------------------------------------
  // Keeping the entries that reach a minimum average

  /** The keys among `ids` whose entry reaches `min`. */
  ghost function Reaching<T>(m: map<int, Scored<T>>, ids: set<int>, min: real): set<int> {
    set id | id in ids && id in m && m[id].avg >= min
  }

  /** `out` holds the entries of `m` under `ids` whose average reaches `min`: nothing else, each of them,
      and as many elements as there are such keys. */
  ghost predicate Selects<T>(m: map<int, Scored<T>>, ids: set<int>, min: real, out: seq<Scored<T>>) {
    && (forall i :: 0 <= i < |out| ==> exists id :: id in Reaching(m, ids, min) && out[i] == m[id])
    && (forall id :: id in Reaching(m, ids, min) ==> m[id] in out)
    && |out| == |Reaching(m, ids, min)|
  }

  /** A non-empty set of keys has a member to visit. */
  lemma PickKey(todo: set<int>)
    requires todo != {}
    ensures exists id :: id in todo
  {
    assert (forall id :: id !in todo) ==> todo == {};
  }

  /** Visiting one more key appends its entry exactly when it reaches the minimum. */
  lemma SelectStep<T>(m: map<int, Scored<T>>, visited: set<int>, id: int, min: real,
                      out: seq<Scored<T>>, out': seq<Scored<T>>)
    requires id in m && id !in visited && Selects(m, visited, min, out)
    requires out' == if m[id].avg >= min then out + [m[id]] else out
    ensures Selects(m, visited + {id}, min, out')
  {
    var before := Reaching(m, visited, min);
    var after := Reaching(m, visited + {id}, min);
    assert after == before + (if m[id].avg >= min then {id} else {});
    forall i | 0 <= i < |out'|
      ensures exists id' :: id' in after && out'[i] == m[id']
    {
      if i < |out| {
        assert exists id' :: id' in Reaching(m, visited, min) && out[i] == m[id'];
        var id' :| id' in before && out[i] == m[id'];
        assert out'[i] == out[i];
      } else {
        assert out'[i] == m[id];
      }
    }
    forall id' | id' in after
      ensures m[id'] in out'
    {
      if id' != id {
        var i :| 0 <= i < |out| && out[i] == m[id'];
        assert out'[i] == m[id'];
      } else {
        assert out'[|out'| - 1] == m[id];
      }
    }
  }

  /** Reordering keeps a selection. */
  lemma PermutationKeepsSelection<T>(m: map<int, Scored<T>>, ids: set<int>, min: real, out: seq<Scored<T>>,
                                     out': seq<Scored<T>>)
    requires Selects(m, ids, min, out) && multiset(out') == multiset(out)
    ensures Selects(m, ids, min, out')
  {
    assert |out'| == |multiset(out')| == |out|;
    forall i | 0 <= i < |out'|
      ensures exists id :: id in Reaching(m, ids, min) && out'[i] == m[id]
    {
      assert out'[i] in multiset(out);
      var j :| 0 <= j < |out| && out[j] == out'[i];
    }
    forall id | id in Reaching(m, ids, min)
      ensures m[id] in out'
    {
      assert m[id] in multiset(out');
    }
  }

  /** The entries of `m` reaching `min`, best average first; equal averages keep the order in which the
      keys were visited. */
  method SelectAndSort<T(==)>(m: map<int, Scored<T>>, min: real) returns (out: seq<Scored<T>>)
    ensures SortedByAverage(out)
    ensures Selects(m, m.Keys, min, out)
  {
    var todo := m.Keys;
    var picked: seq<Scored<T>> := [];
    while todo != {}
      invariant todo <= m.Keys
      invariant Selects(m, m.Keys - todo, min, picked)
      decreases |todo|
    {
      PickKey(todo);
      var id :| id in todo;
      var picked' := if m[id].avg >= min then picked + [m[id]] else picked;
      SelectStep(m, m.Keys - todo, id, min, picked, picked');
      assert m.Keys - (todo - {id}) == (m.Keys - todo) + {id};
      picked := picked';
      todo := todo - {id};
    }
    assert m.Keys - todo == m.Keys;
    out := SortByAverage(picked);
    PermutationKeepsSelection(m, m.Keys, min, picked, out);
  }
}
