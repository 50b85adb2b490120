/** The older n-gram index (`Dice/NgramIndex`). Its bucket table, `Add`, `Clear` and `GetMatches` are
    those of `NgramIndex` (generic in key and value); what differs is how `N` is held, how padding is
    built, and which denominator the coefficient uses (the caller passes `GetNgramCount` as `keyNgrams`). */
module LegacyNgramIndex {
  import opened Wrappers
  import opened Text
  import NgramIndex

  /** The initial value of `_n`. */
  const InitialN: int := 3

  /** The values `N` can hold: it starts at 3 and the setter refuses anything outside 2..10. */
  type NgramLength = n: int | 2 <= n <= 10 witness InitialN

  /** The `N` setter: `ArgumentException` outside 2..10, otherwise the value is taken as is. */
  function SetN(value: int): (r: Result<NgramLength>)
    ensures r.Failure? <==> value < 2 || value > 10
    ensures r.Failure? ==> r.error == Argument
    ensures r.Success? ==> r.value == value
  {
    if value < 2 || value > 10 then Failure(Argument) else Success(value)
  }

  /** `PrepareWord`: N-1 '[' built on every call, the upper-cased word, N-1 ']'. */
  function PrepareWord(n: NgramLength, w: string): (r: string)
    ensures |r| == |w| + 2 * (n - 1)
    ensures forall i :: 0 <= i < n - 1 ==> r[i] == '['
    ensures forall i :: 0 <= i < |w| ==> r[n - 1 + i] == UpperChar(w[i])
    ensures forall i :: |w| + n - 1 <= i < |r| ==> r[i] == ']'
  {
    var r := Repeat('[', n - 1) + Upper(w) + Repeat(']', n - 1);
    assert forall i :: |w| + n - 1 <= i < |r| ==> r[i] == Repeat(']', n - 1)[i - (|w| + n - 1)];
    r
  }

  /** Both lineages prepare a word identically once the current index has its padding installed. */
  lemma SamePreparedWord(cfg: NgramIndex.Config, w: string)
    requires NgramIndex.Padded(cfg) && 2 <= cfg.n <= 10
    ensures PrepareWord(cfg.n, w) == NgramIndex.PrepareWord(cfg, w)
  {
    assert NgramIndex.PrepareWord(cfg, w) == Repeat('[', cfg.n - 1) + Upper(w) + Repeat(']', cfg.n - 1);
  }

  /** `StringToNgramArray` for a valid `N`: a word shorter than N-1 characters is the only failure. */
  lemma WindowsOfPreparedWord(n: NgramLength, w: string)
    ensures NgramIndex.StringToNgramArray(PrepareWord(n, w), n).Success?
    ensures |NgramIndex.StringToNgramArray(PrepareWord(n, w), n).value| == |w| + n - 1
  {
  }
}
