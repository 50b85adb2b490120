/** The value types of the matcher: persons, name slots, search results, search options, and the
    equality comparers the dictionaries use. */
module Domain {
  import opened Wrappers
  import NgramIndex

  /** `DateOnly`. */
  datatype Date = Date(year: int, month: int, day: int)

  /** `PersonNameModel`: one word of a person's full name, the key of the n-gram index. The owning
      `PersonModel` is represented by its id (a datatype cannot contain the person whose names contain
      it); the searcher keeps the persons themselves in a catalog keyed by id. `wordIndex` is the word's
      position in the full name; `sameIndex`/`sameCount` describe the subset of identical words. */
  datatype NameSlot = NameSlot(personId: int, wordIndex: nat, name: string, sameIndex: nat, sameCount: nat) {
    /** `ToString()`: the slot prints as its prepared word. */
    function ToString(): (r: string)
      ensures r == name
    {
      name
    }

    /** `GetNgramCount()`: the prepared word's length less two. */
    function GetNgramCount(): (r: int)
      ensures r + 2 == |ToString()|
    {
      |name| - 2
    }
  }

  /** The three-argument `PersonNameModel` constructor: `SameIndex` and `SameCount` stay 0. */
  function NewNameSlot(personId: int, wordIndex: nat, name: string): (r: NameSlot)
    ensures r.personId == personId && r.wordIndex == wordIndex && r.name == name
    ensures r.sameIndex == 0 && r.sameCount == 0
  {
    NameSlot(personId, wordIndex, name, 0, 0)
  }

  /** With N = 3 the n-gram count of a slot is the number of trigram windows of its word. */
  lemma NgramCountIsTrigramCount(slot: NameSlot)
    requires |slot.name| >= 2
    ensures slot.GetNgramCount() == |NgramIndex.Windows(slot.name, 3)|
  {
  }

  /** Distinct slots, as the numbering makes them. */
  predicate DistinctSlots(names: seq<NameSlot>) {
    forall a, b :: 0 <= a < b < |names| ==> names[a] != names[b]
  }

  /** `PersonModel`. */
  datatype PersonModel = PersonModel(id: int, names: seq<NameSlot>, fullName: string, birthday: Option<Date>)

  // ---------------------------------------------------------------------------------------------
  // Comparers

  /** `a?.Id`: the id of a person, or null. */
  function PersonId(p: Option<PersonModel>): Option<int> {
    if p.Some? then Some(p.value.id) else None
  }

  /** `PersonModelComparer.Equals`: `a?.Id == b?.Id` on nullable ids. */
  function PersonEquals(a: Option<PersonModel>, b: Option<PersonModel>): (r: bool)
    ensures r <==> (a.None? && b.None?) || (a.Some? && b.Some? && a.value.id == b.value.id)
  {
    PersonId(a) == PersonId(b)
  }

  /** `PersonModelComparer.GetHashCode`: an `int` hashes to itself. */
  function PersonHash(p: PersonModel): (r: int)
    ensures forall q :: PersonEquals(Some(p), Some(q)) ==> r == q.id
  {
    p.id
  }

  lemma PersonEqualsIsEquivalence(a: Option<PersonModel>, b: Option<PersonModel>, c: Option<PersonModel>)
    ensures PersonEquals(a, a)
    ensures PersonEquals(a, b) ==> PersonEquals(b, a)
    ensures PersonEquals(a, b) && PersonEquals(b, c) ==> PersonEquals(a, c)
  {
  }

  /** Names, full name and birthday play no part in person equality, and equal persons hash equally. */
  lemma PersonEqualityIgnoresDetails(p: PersonModel, names: seq<NameSlot>, fullName: string, birthday: Option<Date>)
    ensures PersonEquals(Some(p), Some(p.(names := names, fullName := fullName, birthday := birthday)))
    ensures PersonHash(p) == PersonHash(p.(names := names, fullName := fullName, birthday := birthday))
  {
  }

  /** `a?.Person.Id` and `a?.WordIndex`. */
  function SlotPersonId(s: Option<NameSlot>): Option<int> {
    if s.Some? then Some(s.value.personId) else None
  }

  function SlotWordIndex(s: Option<NameSlot>): Option<int> {
    if s.Some? then Some(s.value.wordIndex) else None
  }

  /** `PersonNameModelComparer.Equals`: same person id and same word index. */
  function NameSlotEquals(a: Option<NameSlot>, b: Option<NameSlot>): (r: bool)
    ensures r <==> (a.None? && b.None?)
                   || (a.Some? && b.Some? && a.value.personId == b.value.personId && a.value.wordIndex == b.value.wordIndex)
  {
    SlotPersonId(a) == SlotPersonId(b) && SlotWordIndex(a) == SlotWordIndex(b)
  }

  lemma NameSlotEqualsIsEquivalence(a: Option<NameSlot>, b: Option<NameSlot>, c: Option<NameSlot>)
    ensures NameSlotEquals(a, a)
    ensures NameSlotEquals(a, b) ==> NameSlotEquals(b, a)
    ensures NameSlotEquals(a, b) && NameSlotEquals(b, c) ==> NameSlotEquals(a, c)
  {
  }

  /** The word, the rank and the count of a slot play no part in its equality. */
  lemma NameSlotEqualityIgnoresDetails(s: NameSlot, name: string, sameIndex: nat, sameCount: nat)
    ensures NameSlotEquals(Some(s), Some(s.(name := name, sameIndex := sameIndex, sameCount := sameCount)))
  {
  }

  /** `PersonNameModelComparer.GetHashCode`: the default structural hash of the whole value, modelled
      as an arbitrary function `structuralHash` of the value. */
  function NameSlotHash(structuralHash: NameSlot -> int, s: NameSlot): int {
    structuralHash(s)
  }

  /** The slot comparer's hash is not tied to its equality: two slots of the same person and word index
      but different words are equal, yet a structural hash may tell them apart. */
  lemma EqualSlotsMayHashDifferently()
    ensures var a := NewNameSlot(1, 0, "[[A]]");
            var b := NewNameSlot(1, 0, "[[B]]");
            var h := (s: NameSlot) => if |s.name| > 2 then s.name[2] as int else 0;
            NameSlotEquals(Some(a), Some(b)) && NameSlotHash(h, a) != NameSlotHash(h, b)
  {
  }

  // ---------------------------------------------------------------------------------------------
  // Ranks of identical words

  /** How many words of `words` equal `w`. */
  function Occurrences(words: seq<string>, w: string): (r: nat)
    ensures r <= |words|
    ensures r > 0 <==> w in words
  {
    if words == [] then 0
    else (if words[|words| - 1] == w then 1 else 0) + Occurrences(words[..|words| - 1], w)
  }

  /** The documented meaning of `SameIndex`: the 1-based rank of word `i` among the identical words. */
  function SameIndex(words: seq<string>, i: nat): (r: nat)
    requires i < |words|
    ensures 1 <= r <= i + 1
  {
    assert words[..i + 1][i] == words[i];
    Occurrences(words[..i + 1], words[i])
  }

  /** The documented meaning of `SameCount`: the size of the subset of words identical to word `i`. */
  function SameCount(words: seq<string>, i: nat): (r: nat)
    requires i < |words|
    ensures 1 <= r <= |words|
  {
    assert words[i] in words;
    Occurrences(words, words[i])
  }

  lemma {:induction false} OccurrencesOfPrefix(words: seq<string>, k: nat, w: string)
    requires k <= |words|
    ensures Occurrences(words[..k], w) <= Occurrences(words, w)
    decreases |words|
  {
    if k < |words| {
      assert words[..|words| - 1][..k] == words[..k];
      OccurrencesOfPrefix(words[..|words| - 1], k, w);
    } else {
      assert words[..k] == words;
    }
  }

  /** A rank never exceeds the size of its subset. */
  lemma SameIndexWithinCount(words: seq<string>, i: nat)
    requires i < |words|
    ensures 1 <= SameIndex(words, i) <= SameCount(words, i)
  {
    OccurrencesOfPrefix(words, i + 1, words[i]);
  }

  // ---------------------------------------------------------------------------------------------
  // Search results

  /** `NameSearchResultValueModel` / `NamesSearchResultValueModel`: which input word a slot was matched
      with, and the coefficient. */
  datatype NameValue = NameValue(inputWordIndex: nat, coefficient: real)

  /** `NameSearchResultModel` (one input word) and `NamesSearchResultModel` (all input words): the
      matched slots of one person. */
  datatype NamesResult = NamesResult(names: map<NameSlot, NameValue>)

  /** The value tuple of the older `SearchResultModel`: the number of identical names, the input word
      index (null when no input word matched the slot) and the coefficient. */
  datatype LegacyNameValue = LegacyNameValue(count: int, inputWordIndex: Option<int>, coefficient: real)

  /** The older `SearchResultModel`. */
  datatype LegacyResult = LegacyResult(avgCoefficient: real, names: map<NameSlot, LegacyNameValue>)

  // ---------------------------------------------------------------------------------------------
  // Search options

  /** `Models/SearchOptions`. */
  datatype SearchOptions = SearchOptions(birthday: Option<Date>, yearOfBirth: Option<int>, minCoefficient: real,
                                         minAverageCoefficient: real, averageByInputCount: bool)

  /** The parameterless constructor: the property initialisers. */
  function NewDefaultSearchOptions(): (r: SearchOptions)
    ensures r.birthday.None? && r.yearOfBirth.None?
    ensures r.minCoefficient == 0.39 && r.minAverageCoefficient == 0.75 && r.averageByInputCount
  {
    SearchOptions(None, None, 0.39, 0.75, true)
  }

  /** `SearchOptions.Default`. */
  const DefaultSearchOptions: SearchOptions := NewDefaultSearchOptions()

  /** The five-argument constructor: the dates as given; each threshold and the averaging flag replaced
      only by a non-null argument. */
  function NewSearchOptions(birthday: Option<Date>, yearOfBirth: Option<int>, minCoefficient: Option<real>,
                            minAverageCoefficient: Option<real>, averageByInputCount: Option<bool>): (r: SearchOptions)
    ensures r.birthday == birthday && r.yearOfBirth == yearOfBirth
    ensures minCoefficient.Some? ==> r.minCoefficient == minCoefficient.value
    ensures minCoefficient.None? ==> r.minCoefficient == NewDefaultSearchOptions().minCoefficient
    ensures minAverageCoefficient.Some? ==> r.minAverageCoefficient == minAverageCoefficient.value
    ensures minAverageCoefficient.None? ==> r.minAverageCoefficient == NewDefaultSearchOptions().minAverageCoefficient
    ensures averageByInputCount.Some? ==> r.averageByInputCount == averageByInputCount.value
    ensures averageByInputCount.None? ==> r.averageByInputCount == NewDefaultSearchOptions().averageByInputCount
  {
    var d := NewDefaultSearchOptions();
    var r := d.(birthday := birthday, yearOfBirth := yearOfBirth);
    var r := if minCoefficient.Some? then r.(minCoefficient := minCoefficient.value) else r;
    var r := if minAverageCoefficient.Some? then r.(minAverageCoefficient := minAverageCoefficient.value) else r;
    if averageByInputCount.Some? then r.(averageByInputCount := averageByInputCount.value) else r
  }

  /** All-null arguments give the default options. */
  lemma NullArgumentsGiveDefaults()
    ensures NewSearchOptions(None, None, None, None, None) == DefaultSearchOptions
  {
  }

  /** `Abstractions/SearchOptions` of the older lineage: no averaging flag, stricter thresholds. */
  datatype LegacySearchOptions = LegacySearchOptions(birthday: Option<Date>, yearOfBirth: Option<int>,
                                                     minCoefficient: real, minAverageCoefficient: real)

  function NewDefaultLegacySearchOptions(): (r: LegacySearchOptions)
    ensures r.birthday.None? && r.yearOfBirth.None?
    ensures r.minCoefficient == 0.41 && r.minAverageCoefficient == 0.80
  {
    LegacySearchOptions(None, None, 0.41, 0.80)
  }

  const DefaultLegacySearchOptions: LegacySearchOptions := NewDefaultLegacySearchOptions()

  function NewLegacySearchOptions(birthday: Option<Date>, yearOfBirth: Option<int>, minCoefficient: Option<real>,
                                  minAverageCoefficient: Option<real>): (r: LegacySearchOptions)
    ensures r.birthday == birthday && r.yearOfBirth == yearOfBirth
    ensures minCoefficient.Some? ==> r.minCoefficient == minCoefficient.value
    ensures minCoefficient.None? ==> r.minCoefficient == NewDefaultLegacySearchOptions().minCoefficient
    ensures minAverageCoefficient.Some? ==> r.minAverageCoefficient == minAverageCoefficient.value
    ensures minAverageCoefficient.None? ==> r.minAverageCoefficient == NewDefaultLegacySearchOptions().minAverageCoefficient
  {
    var d := NewDefaultLegacySearchOptions();
    var r := d.(birthday := birthday, yearOfBirth := yearOfBirth);
    var r := if minCoefficient.Some? then r.(minCoefficient := minCoefficient.value) else r;
    if minAverageCoefficient.Some? then r.(minAverageCoefficient := minAverageCoefficient.value) else r
  }

  lemma NullArgumentsGiveLegacyDefaults()
    ensures NewLegacySearchOptions(None, None, None, None) == DefaultLegacySearchOptions
  {
  }
}
