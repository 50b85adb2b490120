/** The word tokenizer and the interning word set (`WordStorageService`, both lineages). */
module WordStorage {
  import opened Wrappers
  import opened Text

  /** The separators used when none are configured: space and hyphen. */
  const DefaultSeparators: set<char> := {' ', '-'}

  /** The most tokens the current `ParseWords` accepts (`byte.MaxValue`). */
  const MaxWords: nat := 255

  /** A token as `Split` with `RemoveEmptyEntries | TrimEntries` yields it. */
  predicate IsToken(t: string, seps: set<char>) {
    && t != []
    && !IsWhiteSpace(t[0])
    && !IsWhiteSpace(t[|t| - 1])
    && forall j :: 0 <= j < |t| ==> t[j] !in seps
  }

  /** `string.Split(seps)` without options: the pieces between separators, empty ones included. */
  function Segments(s: string, seps: set<char>): (r: seq<string>)
    ensures |r| >= 1
    ensures forall i :: 0 <= i < |r| ==> forall j :: 0 <= j < |r[i]| ==> r[i][j] !in seps
    decreases |s|
  {
    if |s| == 0 then [""]
    else if s[0] in seps then [""] + Segments(s[1..], seps)
    else
      var rest := Segments(s[1..], seps);
      [[s[0]] + rest[0]] + rest[1..]
  }

  /** Trims every segment and drops the ones that become empty. */
  function Clean(segments: seq<string>, seps: set<char>): (r: seq<string>)
    requires forall i :: 0 <= i < |segments| ==> forall j :: 0 <= j < |segments[i]| ==> segments[i][j] !in seps
    ensures |r| <= |segments|
    ensures forall i :: 0 <= i < |r| ==> IsToken(r[i], seps)
  {
    if segments == [] then []
    else
      var t := Trim(segments[0]);
      var head := if t == [] then [] else [t];
      head + Clean(segments[1..], seps)
  }

  /** `s.Split(seps, RemoveEmptyEntries | TrimEntries)`; the older `ParseWords` returns exactly this. */
  function Tokens(s: string, seps: set<char>): (r: seq<string>)
    ensures forall i :: 0 <= i < |r| ==> IsToken(r[i], seps)
  {
    Clean(Segments(s, seps), seps)
  }

  /** Words joined by single spaces. */
  function Join(words: seq<string>): string {
    if |words| == 0 then ""
    else if |words| == 1 then words[0]
    else words[0] + " " + Join(words[1..])
  }

  lemma {:induction false} SegmentsOfWord(w: string, seps: set<char>)
    requires forall j :: 0 <= j < |w| ==> w[j] !in seps
    ensures Segments(w, seps) == [w]
    decreases |w|
  {
    if |w| > 0 {
      SegmentsOfWord(w[1..], seps);
      assert [w[0]] + w[1..] == w;
    }
  }

  lemma {:induction false} SegmentsOfWordThenSeparator(w: string, t: string, seps: set<char>)
    requires ' ' in seps
    requires forall j :: 0 <= j < |w| ==> w[j] !in seps
    ensures Segments(w + " " + t, seps) == [w] + Segments(t, seps)
    decreases |w|
  {
    var s := w + " " + t;
    if |w| == 0 {
      assert s[0] == ' ' && s[1..] == t;
    } else {
      assert s[1..] == w[1..] + " " + t;
      SegmentsOfWordThenSeparator(w[1..], t, seps);
      assert [w[0]] + w[1..] == w;
    }
  }

  lemma CleanCons(w: string, rest: seq<string>, seps: set<char>)
    requires IsToken(w, seps)
    requires forall i :: 0 <= i < |rest| ==> forall j :: 0 <= j < |rest[i]| ==> rest[i][j] !in seps
    ensures Clean([w] + rest, seps) == [w] + Clean(rest, seps)
  {
    TrimIdentity(w);
    assert ([w] + rest)[1..] == rest;
  }

  /** Round trip: splitting words joined by spaces gives the words back, when each is already a token. */
  lemma {:induction false} TokensOfJoin(words: seq<string>, seps: set<char>)
    requires ' ' in seps
    requires forall i :: 0 <= i < |words| ==> IsToken(words[i], seps)
    ensures Tokens(Join(words), seps) == words
    decreases |words|
  {
    if |words| == 0 {
      assert Segments("", seps) == [""];
    } else if |words| == 1 {
      SegmentsOfWord(words[0], seps);
      CleanCons(words[0], [], seps);
    } else {
      var rest := Join(words[1..]);
      assert Join(words) == words[0] + " " + rest;
      SegmentsOfWordThenSeparator(words[0], rest, seps);
      TokensOfJoin(words[1..], seps);
      CleanCons(words[0], Segments(rest, seps), seps);
    }
  }

  /** One parsed word: its prepared value and its position in the name (`WordModel`). */
  datatype WordModel = WordModel(value: string, index: nat)

  /** The current `ParseWords`: tokens, a 255-token ceiling, then `prepare` applied to each in order. */
  function ParseWords(s: string, prepare: string -> string, seps: set<char>): (r: Result<seq<WordModel>>)
    ensures r.Failure? <==> |Tokens(s, seps)| > MaxWords
    ensures r.Failure? ==> r.error == Arithmetic
    ensures r.Success? ==>
      && |r.value| == |Tokens(s, seps)|
      && forall i :: 0 <= i < |r.value| ==>
           r.value[i].index == i && r.value[i].value == prepare(Tokens(s, seps)[i])
  {
    var tokens := Tokens(s, seps);
    if |tokens| > MaxWords then Failure(Arithmetic)
    else Success(seq(|tokens|, i requires 0 <= i < |tokens| => WordModel(prepare(tokens[i]), i)))
  }

  /** The interning set of prepared words (`HashSet<string>`); words are compared by content. */
  type Store = set<string>

  /** `TryGet` (current) / `Get` (older): the stored equal word, or null. */
  function TryGet(store: Store, word: string): (r: Option<string>)
    ensures r.None? <==> word !in store
    ensures r.Some? ==> r.value in store && r.value == word
  {
    if word in store then Some(word) else None
  }

  /** The store after a call together with the call's return value. */
  datatype Interned = Interned(store: Store, word: string)

  /** `GetOrAdd`: the stored equal word if there is one, otherwise the word is added and returned. */
  function GetOrAdd(store: Store, word: string): (r: Interned)
    ensures r.word == word
    ensures word in store ==> r.store == store
    ensures word !in store ==> r.store == store + {word}
    ensures TryGet(r.store, word) == Some(word)
  {
    match TryGet(store, word)
    case Some(v) => Interned(store, v)
    case None => Interned(store + {word}, word)
  }

  /** A repeated `GetOrAdd` of an equal word changes nothing and answers the same. */
  lemma GetOrAddIdempotent(store: Store, word: string)
    ensures var first := GetOrAdd(store, word);
            GetOrAdd(first.store, word) == first
  {
  }

  /** `Clear`: the store after it. */
  function Clear(store: Store): (r: Store)
    ensures forall w :: TryGet(r, w).None?
  {
    {}
  }

  /** Interning a whole sequence of words, left to right. */
  function InternAll(store: Store, words: seq<string>): (r: Store)
    ensures r == store + set i | 0 <= i < |words| :: words[i]
    decreases |words|
  {
    if words == [] then store
    else
      var rest := InternAll(GetOrAdd(store, words[0]).store, words[1..]);
      assert (set i | 0 <= i < |words| :: words[i]) == {words[0]} + set i | 0 <= i < |words[1..]| :: words[1..][i];
      rest
  }
}
