/** The n-gram inverted index (`Tools/NgramIndex`, the current lineage). The bucket table, `Add`,
    `Clear` and `GetMatches` are generic in the key and value types and shared with the older index,
    which differs only in how it pads words and in the denominator of the coefficient. */
module NgramIndex {
  import opened Wrappers
  import opened Text

  /** The n-gram length used when none is configured. */
  const DefaultN: int := 3

  /** The overlapping windows of length `n` of `s` (the body of `StringToNgramArray`). N-grams are
      compared by their characters only (see `Ngrams.EqualsIffSameContent`), so a window is its content. */
  function Windows(s: string, n: int): (r: seq<string>)
    requires 0 <= n && n - 1 <= |s|
    ensures |r| == |s| - (n - 1)
    ensures forall i :: 0 <= i < |r| ==> r[i] == s[i..i + n]
  {
    seq(|s| - (n - 1), i requires 0 <= i < |s| - (n - 1) => s[i..i + n])
  }

  /** `StringToNgramArray`: a negative array length throws `OverflowException`, a negative span length
      `ArgumentOutOfRangeException`. */
  function StringToNgramArray(s: string, n: int): (r: Result<seq<string>>)
    ensures r.Success? <==> 0 <= n && n - 1 <= |s|
    ensures r.Success? ==> |r.value| == |s| - (n - 1)
    ensures r.Success? ==> forall i :: 0 <= i < |r.value| ==> r.value[i] == s[i..i + n]
  {
    if n < 0 then Failure(ArgumentOutOfRange)
    else if |s| - (n - 1) < 0 then Failure(Overflow)
    else Success(Windows(s, n))
  }

  /** The index configuration: `N` and the cached padding strings. */
  datatype Config = Config(n: int, beginning: string, ending: string)

  /** The padding `SetBeginning`/`SetEnding` install: N-1 '[' and N-1 ']'. */
  predicate Padded(cfg: Config) {
    && cfg.n >= 1
    && cfg.beginning == Repeat('[', cfg.n - 1)
    && cfg.ending == Repeat(']', cfg.n - 1)
  }

  /** The primary constructor: N is the given value or 3, unchecked, and the padding is left empty. */
  function NewIndex(n: Option<int>): (r: Config)
    ensures n.None? ==> r.n == DefaultN
    ensures n.Some? ==> r.n == n.value
    ensures r.beginning == [] && r.ending == []
  {
    Config(n.GetOr(DefaultN), "", "")
  }

  /** The four-argument constructor: the primary one followed by `SetBeginning`/`SetEnding`, whose
      `new string(c, N - 1)` throws for N < 1. */
  function NewIndexWithComparers(n: Option<int>): (r: Result<Config>)
    ensures r.Failure? <==> n.GetOr(DefaultN) < 1
    ensures r.Success? ==> r.value.n == n.GetOr(DefaultN) && Padded(r.value)
  {
    var m := n.GetOr(DefaultN);
    if m - 1 < 0 then Failure(ArgumentOutOfRange)
    else Success(Config(m, Repeat('[', m - 1), Repeat(']', m - 1)))
  }

  /** The `N` setter: rejects values outside 2..10; re-pads only when N actually changes. */
  function SetN(cfg: Config, value: int): (r: Result<Config>)
    ensures r.Failure? <==> value < 2 || value > 10
    ensures r.Failure? ==> r.error == Argument
    ensures r.Success? ==> r.value.n == value
    ensures r.Success? && cfg.n != value ==> Padded(r.value)
    ensures r.Success? && cfg.n == value ==> r.value == cfg
  {
    if value < 2 || value > 10 then Failure(Argument)
    else if cfg.n != value then Success(Config(value, Repeat('[', value - 1), Repeat(']', value - 1)))
    else Success(cfg)
  }

  /** `PrepareWord`: the beginning padding, the upper-cased word, the ending padding. */
  function PrepareWord(cfg: Config, w: string): (r: string)
    ensures |r| == |cfg.beginning| + |w| + |cfg.ending|
    ensures r[..|cfg.beginning|] == cfg.beginning
    ensures r[|cfg.beginning|..|cfg.beginning| + |w|] == Upper(w)
    ensures r[|cfg.beginning| + |w|..] == cfg.ending
  {
    cfg.beginning + Upper(w) + cfg.ending
  }

  /** With the padding installed, a prepared word is 2(N-1) characters longer than the word. */
  lemma PreparedLength(cfg: Config, w: string)
    requires Padded(cfg)
    ensures |PrepareWord(cfg, w)| == |w| + 2 * (cfg.n - 1)
    ensures forall i :: 0 <= i < cfg.n - 1 ==> PrepareWord(cfg, w)[i] == '['
    ensures forall i :: |w| + cfg.n - 1 <= i < |w| + 2 * (cfg.n - 1) ==> PrepareWord(cfg, w)[i] == ']'
  {
    var r := PrepareWord(cfg, w);
    forall i | |w| + cfg.n - 1 <= i < |w| + 2 * (cfg.n - 1)
      ensures r[i] == ']'
    {
      assert r[i] == r[|cfg.beginning| + |w|..][i - (|w| + cfg.n - 1)];
    }
  }

  // ---------------------------------------------------------------------------------------------
  // The bucket table

  /** The table n-gram -> (key -> value) (`Dictionary<Ngram, Dictionary<TIndexKey, TIndexValue>>`). */
  type Buckets<K(==,!new), V> = map<string, map<K, V>>

  function Bucket<K(==,!new), V>(b: Buckets<K, V>, g: string): map<K, V> {
    if g in b then b[g] else map[]
  }

  /** Upserts `key -> value` into the bucket of each window in turn (the loop of `Add`). */
  function AddWindows<K(==,!new), V>(b: Buckets<K, V>, windows: seq<string>, key: K, value: V): (r: Buckets<K, V>)
    ensures forall g :: g in windows ==> g in r && r[g] == Bucket(b, g)[key := value]
    ensures forall g :: g !in windows ==> (g in r <==> g in b)
    ensures forall g :: g !in windows && g in b ==> r[g] == b[g]
    decreases |windows|
  {
    if windows == [] then b
    else
      var g := windows[0];
      var b' := b[g := Bucket(b, g)[key := value]];
      AddWindows(b', windows[1..], key, value)
  }

  /** `Add(input, key, value)`: last write wins in every window's bucket; no other bucket changes. */
  function Add<K(==,!new), V>(b: Buckets<K, V>, n: int, input: string, key: K, value: V): (r: Result<Buckets<K, V>>)
    ensures r.Success? <==> 0 <= n && n - 1 <= |input|
    ensures r.Success? ==> forall g :: g in Windows(input, n) ==>
              g in r.value && key in r.value[g] && r.value[g][key] == value
    ensures r.Success? ==> forall g :: g in r.value && g !in Windows(input, n) ==> g in b && r.value[g] == b[g]
    ensures r.Success? ==> forall g, k :: g in r.value && k in r.value[g] && k != key ==> g in b && k in b[g] && r.value[g][k] == b[g][k]
    ensures r.Success? ==> forall g, k :: g in b && k in b[g] && k != key ==> g in r.value && k in r.value[g] && r.value[g][k] == b[g][k]
  {
    match StringToNgramArray(input, n)
    case Failure(e) => Failure(e)
    case Success(windows) =>
      Success(AddWindows(b, windows, key, value))
  }

  /** `Clear`: every bucket is gone. */
  function Clear<K(==,!new), V>(b: Buckets<K, V>): (r: Buckets<K, V>)
    ensures forall g :: Bucket(r, g) == map[]
  {
    map[]
  }

  // ---------------------------------------------------------------------------------------------
  // Matching

  /** The per-key result of `GetMatches` (`NgramSearchResultModel`). */
  datatype Match = Match(matches: nat, coefficient: real)

  /** Reference count: how many query windows, repeats included, find `key` in their bucket with a
      value the filter accepts. */
  function Hits<K(==,!new), V>(b: Buckets<K, V>, windows: seq<string>, key: K, filter: (K, V) -> bool): (r: nat)
    ensures r <= |windows|
    ensures r > 0 ==> exists i :: 0 <= i < |windows| && windows[i] in b && key in b[windows[i]]
  {
    if windows == [] then 0
    else
      var g := windows[0];
      var hit := if g in b && key in b[g] && filter(key, b[g][key]) then 1 else 0;
      var rest := Hits(b, windows[1..], key, filter);
      assert rest > 0 ==> exists i :: 1 <= i < |windows| && windows[i] in b && key in b[windows[i]] by {
        if rest > 0 {
          var i :| 0 <= i < |windows[1..]| && windows[1..][i] in b && key in b[windows[1..][i]];
          assert windows[i + 1] == windows[1..][i];
        }
      }
      hit + rest
  }

  function Count<K(==,!new)>(counts: map<K, nat>, k: K): nat {
    if k in counts then counts[k] else 0
  }

  /** One window of the `GetMatches` loop: every filtered key of the bucket gets one more match. */
  function CountBucket<K(==,!new), V>(counts: map<K, nat>, bucket: map<K, V>, filter: (K, V) -> bool): (r: map<K, nat>)
    ensures forall k :: k in r <==> k in counts || (k in bucket && filter(k, bucket[k]))
    ensures forall k :: k in r ==> r[k] == Count(counts, k) + (if k in bucket && filter(k, bucket[k]) then 1 else 0)
  {
    var passing := set k | k in bucket && filter(k, bucket[k]);
    map k | k in counts.Keys + passing :: Count(counts, k) + (if k in passing then 1 else 0)
  }

  /** The counting loop of `GetMatches` over all query windows, in order. */
  function CountWindows<K(==,!new), V>(counts: map<K, nat>, b: Buckets<K, V>, windows: seq<string>, filter: (K, V) -> bool): (r: map<K, nat>)
    ensures forall k :: k in r <==> k in counts || Hits(b, windows, k, filter) > 0
    ensures forall k :: k in r ==> r[k] == Count(counts, k) + Hits(b, windows, k, filter)
    decreases |windows|
  {
    if windows == [] then counts
    else
      var g := windows[0];
      var counts' := if g in b then CountBucket(counts, b[g], filter) else counts;
      CountWindows(counts', b, windows[1..], filter)
  }

  /** The Dice ratio `2 * matches / (query n-grams + key n-grams)`. A counted key always has a positive
      denominator when its n-gram count is that of the word it was added with; the zero branch stands
      for the IEEE infinity that cannot arise then. */
  function Coefficient(matches: nat, queryNgrams: int, keyNgrams: int): real {
    if queryNgrams + keyNgrams <= 0 then 0.0
    else (2 * matches) as real / (queryNgrams + keyNgrams) as real
  }

  /** Attaches the coefficient to every counted key. */
  function Score<K(==,!new)>(counts: map<K, nat>, queryNgrams: nat, keyNgrams: K -> int): (r: map<K, Match>)
    ensures r.Keys == counts.Keys
    ensures forall k :: k in r ==> r[k] == Match(counts[k], Coefficient(counts[k], queryNgrams, keyNgrams(k)))
  {
    map k | k in counts :: Match(counts[k], Coefficient(counts[k], queryNgrams, keyNgrams(k)))
  }

  /** The final loop of `GetMatches`: below `minCoefficient` is dropped, and only when `minCoefficient < 1`. */
  function Threshold<K(==,!new)>(scored: map<K, Match>, minCoefficient: real): (r: map<K, Match>)
    ensures forall k :: k in r <==> k in scored && (minCoefficient >= 1.0 || scored[k].coefficient >= minCoefficient)
    ensures forall k :: k in r ==> r[k] == scored[k]
  {
    if minCoefficient < 1.0 then map k | k in scored && scored[k].coefficient >= minCoefficient :: scored[k]
    else scored
  }

  /** What `GetMatches` promises of one key. */
  ghost predicate MatchesKey<K(!new), V>(r: map<K, Match>, b: Buckets<K, V>, windows: seq<string>, k: K,
                                         minCoefficient: real, keyNgrams: K -> int, filter: (K, V) -> bool)
  {
    var hits := Hits(b, windows, k, filter);
    && (k in r <==> hits > 0 && (minCoefficient >= 1.0 || Coefficient(hits, |windows|, keyNgrams(k)) >= minCoefficient))
    && (k in r ==> r[k] == Match(hits, Coefficient(hits, |windows|, keyNgrams(k))))
  }

  /** `GetMatches(input, minCoefficient, filter)`, with the key's own n-gram count as `keyNgrams`
      (the two lineages differ only there). A blank input throws `ArgumentException`. A key is in the
      result iff some query window finds it through the filter and, when `minCoefficient < 1`, its
      coefficient reaches `minCoefficient`; its match count is the number of such windows. */
  function GetMatches<K(==,!new), V>(b: Buckets<K, V>, n: int, input: string, minCoefficient: real,
                                    keyNgrams: K -> int, filter: (K, V) -> bool): (r: Result<map<K, Match>>)
    ensures r.Failure? <==> IsBlank(input) || n < 0 || |input| < n - 1
    ensures r.Success? ==> forall k :: MatchesKey(r.value, b, Windows(input, n), k, minCoefficient, keyNgrams, filter)
  {
    if IsBlank(input) then Failure(Argument)
    else
      match StringToNgramArray(input, n)
      case Failure(e) => Failure(e)
      case Success(windows) =>
        var counts := CountWindows(map[], b, windows, filter);
        Success(Threshold(Score(counts, |windows|, keyNgrams), minCoefficient))
  }

  /** Every window of `s` finds `key`, through the filter, in its bucket. */
  ghost predicate AllWindowsHit<K(!new), V>(b: Buckets<K, V>, windows: seq<string>, key: K, filter: (K, V) -> bool) {
    forall i :: 0 <= i < |windows| ==>
      windows[i] in b && key in b[windows[i]] && filter(key, b[windows[i]][key])
  }

  lemma {:induction false} HitsAll<K(!new), V>(b: Buckets<K, V>, windows: seq<string>, key: K, filter: (K, V) -> bool)
    requires AllWindowsHit(b, windows, key, filter)
    ensures Hits(b, windows, key, filter) == |windows|
    decreases |windows|
  {
    if windows != [] {
      assert AllWindowsHit(b, windows[1..], key, filter) by {
        forall i | 0 <= i < |windows[1..]|
          ensures windows[1..][i] in b && key in b[windows[1..][i]] && filter(key, b[windows[1..][i]][key])
        {
          assert windows[1..][i] == windows[i + 1];
        }
      }
      HitsAll(b, windows[1..], key, filter);
    }
  }

  /** A query whose every window was among the windows added under `key` (with a value the filter accepts)
      finds `key` once per query window. */
  lemma HitsAfterAdd<K(!new), V>(b: Buckets<K, V>, stored: seq<string>, query: seq<string>, key: K, value: V,
                                 filter: (K, V) -> bool)
    requires filter(key, value)
    requires forall i :: 0 <= i < |query| ==> query[i] in stored
    ensures Hits(AddWindows(b, stored, key, value), query, key, filter) == |query|
  {
    var b' := AddWindows(b, stored, key, value);
    forall i | 0 <= i < |query|
      ensures query[i] in b' && key in b'[query[i]] && filter(key, b'[query[i]][key])
    {
      assert query[i] in stored;
    }
    HitsAll(b', query, key, filter);
  }

  lemma SelfCoefficient(m: nat)
    requires m >= 1
    ensures Coefficient(m, m, m) == 1.0
  {
    var d := (2 * m) as real;
    assert (m + m) as real == d && d > 0.0;
    assert d / d == 1.0;
  }

  /** A word that was added under `key` (and passes the filter) finds that key with coefficient exactly 1,
      provided the key's n-gram count is the word's window count. */
  lemma AddThenQueryScoresOne<K(!new), V>(b: Buckets<K, V>, n: int, s: string, key: K, value: V,
                                          minCoefficient: real, keyNgrams: K -> int, filter: (K, V) -> bool)
    requires 0 <= n && n <= |s| && !IsBlank(s)
    requires keyNgrams(key) == |s| - (n - 1)
    requires filter(key, value)
    ensures Add(b, n, s, key, value).Success?
    ensures var r := GetMatches(Add(b, n, s, key, value).value, n, s, minCoefficient, keyNgrams, filter);
            r.Success? && key in r.value && r.value[key] == Match(|s| - (n - 1), 1.0)
  {
    var windows := Windows(s, n);
    var b' := AddWindows(b, windows, key, value);
    assert Add(b, n, s, key, value) == Success(b');
    HitsAfterAdd(b, windows, windows, key, value, filter);
    SelfCoefficient(|windows|);
    MatchOfAdded(b', n, s, key, minCoefficient, keyNgrams, filter);
  }

  lemma MatchOfAdded<K(!new), V>(b: Buckets<K, V>, n: int, s: string, key: K,
                                 minCoefficient: real, keyNgrams: K -> int, filter: (K, V) -> bool)
    requires 0 <= n && n <= |s| && !IsBlank(s)
    requires Hits(b, Windows(s, n), key, filter) == |s| - (n - 1) == keyNgrams(key)
    requires Coefficient(|s| - (n - 1), |s| - (n - 1), |s| - (n - 1)) == 1.0
    ensures var r := GetMatches(b, n, s, minCoefficient, keyNgrams, filter);
            r.Success? && key in r.value && r.value[key] == Match(|s| - (n - 1), 1.0)
  {
    var r := GetMatches(b, n, s, minCoefficient, keyNgrams, filter);
    assert MatchesKey(r.value, b, Windows(s, n), key, minCoefficient, keyNgrams, filter);
  }

  lemma StoredWindowsOfAAA()
    ensures Windows("[[AAA]]", 3) == ["[[A", "[AA", "AAA", "AA]", "A]]"]
  {
    var w := "[[AAA]]";
    assert w[0..3] == "[[A" && w[1..4] == "[AA" && w[2..5] == "AAA" && w[3..6] == "AA]" && w[4..7] == "A]]";
  }

  lemma QueryWindowsOfAAAA()
    ensures Windows("[[AAAA]]", 3) == ["[[A", "[AA", "AAA", "AAA", "AA]", "A]]"]
  {
    var q := "[[AAAA]]";
    assert q[0..3] == "[[A" && q[1..4] == "[AA" && q[2..5] == "AAA" && q[3..6] == "AAA" && q[4..7] == "AA]" && q[5..8] == "A]]";
  }

  /** Repeated query n-grams are counted every time, so a coefficient can exceed 1: with N = 3 the
      prepared query "[[AAAA]]" against the stored "[[AAA]]" has 6 matches over 6 + 5 n-grams. */
  lemma CoefficientCanExceedOne()
    ensures var b := AddWindows(map[], Windows("[[AAA]]", 3), 0, 0);
            var windows := Windows("[[AAAA]]", 3);
            && Hits(b, windows, 0, (_, _) => true) == 6
            && Coefficient(6, |windows|, |Windows("[[AAA]]", 3)|) == 12.0 / 11.0
  {
    StoredWindowsOfAAA();
    QueryWindowsOfAAAA();
    var stored := Windows("[[AAA]]", 3);
    var windows := Windows("[[AAAA]]", 3);
    forall i | 0 <= i < |windows|
      ensures windows[i] in stored
    {
      assert windows[i] == stored[if i <= 2 then i else i - 1];
    }
    HitsAfterAdd(map[], stored, windows, 0, 0, (_, _) => true);
  }

  lemma {:induction false} HitsNone<K(!new), V>(windows: seq<string>, key: K, filter: (K, V) -> bool)
    ensures Hits(map[], windows, key, filter) == 0
    decreases |windows|
  {
    if windows != [] {
      HitsNone(windows[1..], key, filter);
    }
  }

  /** After `Clear`, nothing matches. */
  lemma ClearedIndexMatchesNothing<K(!new), V>(b: Buckets<K, V>, n: int, input: string, minCoefficient: real,
                                                 keyNgrams: K -> int, filter: (K, V) -> bool)
    requires !IsBlank(input) && 0 <= n && n - 1 <= |input|
    ensures var r := GetMatches(Clear(b), n, input, minCoefficient, keyNgrams, filter);
            r.Success? && r.value == map[]
  {
    var r := GetMatches(Clear(b), n, input, minCoefficient, keyNgrams, filter);
    forall k
      ensures k !in r.value
    {
      HitsNone(Windows(input, n), k, filter);
      assert MatchesKey(r.value, Clear(b), Windows(input, n), k, minCoefficient, keyNgrams, filter);
    }
  }
}
