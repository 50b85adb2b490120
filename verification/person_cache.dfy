/** `PersonCacheService`, the older lineage: persons are added to the older n-gram index one slot per
    word, and a search walks the input words in order, keeping in one accumulator the persons that
    every word so far has found by one of their names, each name carrying the coefficient of the first
    input word that found it. */
module PersonCache {
  import opened Wrappers
  import opened Text
  import WordStorage
  import NgramIndex
  import LegacyNgramIndex
  import opened Domain
  import opened SlotIndex
  import opened Ranking
  import opened ResultOrdering

  // ---------------------------------------------------------------------------------------------
  // State

  /** The service never sets `N`, so the index keeps its initial trigram length. */
  const N: LegacyNgramIndex.NgramLength := LegacyNgramIndex.InitialN

  /** `sbyte.MaxValue`: the most words a full name may have. */
  const MaxNameWords: nat := 127

  /** The cache: the word store, the bucket table (slot -> owning person) and the persons the slots
      refer to, by id. */
  datatype Cache = Cache(store: WordStorage.Store, index: NgramIndex.Buckets<NameSlot, PersonModel>,
                         catalog: map<int, PersonModel>)

  /** A freshly constructed cache. */
  const EmptyCache: Cache := Cache({}, map[], map[])

  /** What every operation keeps: catalogued persons are well formed and every indexed slot points at
      a catalogued person. */
  ghost predicate Valid(c: Cache) {
    CatalogWellFormed(c.catalog) && IndexInCatalog(c.index, c.catalog)
  }

  /** Every indexed slot is one of the names of the person it points at. This holds as long as no id
      is added twice (`AddFreshKeepsOwned`). */
  ghost predicate Owned(c: Cache) {
    forall g, slot :: g in c.index && slot in c.index[g] ==>
      slot.personId in c.catalog && slot in c.catalog[slot.personId].names
  }

  lemma EmptyCacheValid()
    ensures Valid(EmptyCache) && Owned(EmptyCache)
    ensures EmptyCache.store == {} && EmptyCache.index == map[] && EmptyCache.catalog == map[]
  {
  }

  // ---------------------------------------------------------------------------------------------
  // Ingestion

  /** `GetPreparedInput`, whose definition is not part of this model, taken to be the older index's
      `PrepareWord` with N = 3. A prepared word starts with '[', so it is never blank, and it has at
      least N-1 characters. */
  function Prepare(w: string): (r: string)
    ensures |r| == |w| + 4 && r[0] == '['
    ensures !IsBlank(r)
  {
    var r := LegacyNgramIndex.PrepareWord(N, w);
    assert r[0] == '[' && !IsWhiteSpace(r[0]);
    r
  }

  /** The tokens of a name, in order (the older `ParseWords` has no ceiling). */
  function NameTokens(s: string): seq<string> {
    WordStorage.Tokens(s, WordStorage.DefaultSeparators)
  }

  /** The prepared tokens of `fullName`, in order. */
  function PreparedTokens(fullName: string): (r: seq<string>)
    ensures |r| == |NameTokens(fullName)|
    ensures forall i :: 0 <= i < |r| ==> r[i] == Prepare(NameTokens(fullName)[i])
  {
    var tokens := NameTokens(fullName);
    seq(|tokens|, i requires 0 <= i < |tokens| => Prepare(tokens[i]))
  }

  /** The success branch of `Add` for a name with tokens: the person (its full name is not kept by the
      three-argument constructor) with one slot per prepared token, its slots indexed, its words
      interned, and the person catalogued under its id. */
  function Ingest(c: Cache, id: int, fullName: string, birthday: Option<Date>): Cache {
    var words := PreparedTokens(fullName);
    var names := NewSlots(id, words);
    var person := PersonModel(id, names, "", birthday);
    Cache(WordStorage.InternAll(c.store, words), IndexSlots(c.index, N, names, person), c.catalog[id := person])
  }

  /** What a successful `Add` of a name with tokens does: slot `i` of the person holds the `i`-th
      prepared token and is indexed under every window of it with the person as value; the store gains
      the prepared tokens; the catalog gains (or replaces) the person and nothing else; entries of other
      slots stay. */
  ghost predicate Ingests(c: Cache, c': Cache, id: int, fullName: string, birthday: Option<Date>) {
    var words := PreparedTokens(fullName);
    && id in c'.catalog
    && var p := c'.catalog[id];
    && p == PersonModel(id, p.names, "", birthday)
    && |p.names| == |words|
    && (forall i :: 0 <= i < |words| ==> p.names[i] == NewNameSlot(id, i, words[i]))
    && Indexed(c'.index, N, p.names, p)
    && c'.store == c.store + (set i | 0 <= i < |words| :: words[i])
    && c'.catalog == c.catalog[id := p]
    && Keeps(c.index, c'.index, p.names)
    && Only(c.index, c'.index, p.names, p)
  }

  /** Ingesting keeps the invariant and does what `Ingests` describes. */
  lemma IngestIngests(c: Cache, id: int, fullName: string, birthday: Option<Date>)
    requires Valid(c)
    ensures Valid(Ingest(c, id, fullName, birthday))
    ensures Ingests(c, Ingest(c, id, fullName, birthday), id, fullName, birthday)
  {
    var words := PreparedTokens(fullName);
    var names := NewSlots(id, words);
    var person := PersonModel(id, names, "", birthday);
    assert Ingested(person, id);
    WellFormedAfter(c.catalog, person);
    IndexSlotsAddsOnly(c.index, N, names, person);
    InCatalogAfter(c.index, IndexSlots(c.index, N, names, person), c.catalog, person);
    IndexSlotsIndexed(c.index, N, names, person);
    IndexSlotsKept(c.index, N, names, person);
  }

  /** `Add(id, fullName, birthday)`: a name without tokens changes nothing; more than 127 tokens throw
      `ArithmeticException` before anything changes. */
  function Add(c: Cache, id: int, fullName: string, birthday: Option<Date>): (r: Result<Cache>)
    requires Valid(c)
    ensures r.Failure? <==> |NameTokens(fullName)| > MaxNameWords
    ensures r.Failure? ==> r.error == Arithmetic
    ensures r.Success? ==> Valid(r.value)
    ensures NameTokens(fullName) == [] ==> r == Success(c)
    ensures r.Success? && NameTokens(fullName) != [] ==> Ingests(c, r.value, id, fullName, birthday)
  {
    var words := NameTokens(fullName);
    if words == [] then Success(c)
    else if |words| > MaxNameWords then Failure(Arithmetic)
    else
      IngestIngests(c, id, fullName, birthday);
      Success(Ingest(c, id, fullName, birthday))
  }

  /** Cataloguing a well-formed person under a fresh id, with only its own slots indexed anew, keeps
      every indexed slot among its person's names. */
  lemma CatalogFreshKeepsOwned(c: Cache, c': Cache, p: PersonModel)
    requires Owned(c) && p.id !in c.catalog && Ingested(p, p.id)
    requires c'.catalog == c.catalog[p.id := p] && Only(c.index, c'.index, p.names, p)
    ensures Owned(c')
  {
    forall g, slot | g in c'.index && slot in c'.index[g]
      ensures slot.personId in c'.catalog && slot in c'.catalog[slot.personId].names
    {
      if slot in p.names {
        var i :| 0 <= i < |p.names| && p.names[i] == slot;
      } else {
        assert g in c.index && slot in c.index[g];
      }
    }
  }

  /** Adding a person under an id not yet catalogued keeps every indexed slot among its person's names. */
  lemma AddFreshKeepsOwned(c: Cache, id: int, fullName: string, birthday: Option<Date>)
    requires Valid(c) && Owned(c) && id !in c.catalog
    requires Add(c, id, fullName, birthday).Success?
    ensures Owned(Add(c, id, fullName, birthday).value)
  {
    var c' := Add(c, id, fullName, birthday).value;
    if NameTokens(fullName) != [] {
      assert CatalogWellFormed(c'.catalog);
      CatalogFreshKeepsOwned(c, c', c'.catalog[id]);
    }
  }

  /** `Clear`: the store and the table are emptied, and with them every person. */
  function Clear(c: Cache): (r: Cache)
    ensures Valid(r) && Owned(r)
    ensures forall w :: WordStorage.TryGet(r.store, w).None?
    ensures forall g :: NgramIndex.Bucket(r.index, g) == map[]
    ensures r.catalog == map[]
  {
    Cache(WordStorage.Clear(c.store), NgramIndex.Clear(c.index), map[])
  }

  // ---------------------------------------------------------------------------------------------
  // Looking up one input word

  /** The filter of `SearchWord`: with no birthday asked for, any person when no year is asked for
      either, otherwise a person born in that year; `Nullable.Equals` on the birthdays also lets
      through the persons whose birthday is the one asked for (or who have none when none is asked). */
  predicate Passes(opts: LegacySearchOptions, p: PersonModel) {
    || (opts.birthday.None? && (opts.yearOfBirth.None? ||
                                (p.birthday.Some? && opts.yearOfBirth.value == p.birthday.value.year)))
    || opts.birthday == p.birthday
  }

  /** With no birthday and no year asked for, everyone passes; a year rejects a person born in another
      year. */
  lemma PassesByYear(opts: LegacySearchOptions, p: PersonModel)
    requires opts.birthday.None?
    ensures opts.yearOfBirth.None? ==> Passes(opts, p)
    ensures opts.yearOfBirth.Some? && p.birthday.Some? && p.birthday.value.year != opts.yearOfBirth.value ==>
              !Passes(opts, p)
  {
  }

  /** The filter as the index calls it. */
  function Admits(opts: LegacySearchOptions): (NameSlot, PersonModel) -> bool {
    (slot: NameSlot, p: PersonModel) => Passes(opts, p)
  }

  /** The key's n-gram count in the Dice denominator: `GetNgramCount()`. The key the cache builds is a
      three-argument name model whose definition is not part of this model; its count is taken to be
      the slot's `GetNgramCount()`, the word's length minus 2. */
  function KeyNgrams(): NameSlot -> int {
    (slot: NameSlot) => slot.GetNgramCount()
  }

  /** The hits of one input word: `GetMatches` of the prepared word with the options' minimum
      coefficient and filter. A prepared word is never blank, so this never throws. */
  function WordHits(c: Cache, token: string, opts: LegacySearchOptions): map<NameSlot, NgramIndex.Match> {
    NgramIndex.GetMatches(c.index, N, Prepare(token), opts.minCoefficient, KeyNgrams(), Admits(opts)).value
  }

  /** What `GetMatches` promises of every key of the hits. */
  lemma WordHitsMatch(c: Cache, token: string, opts: LegacySearchOptions, slot: NameSlot)
    ensures NgramIndex.MatchesKey(WordHits(c, token, opts), c.index, NgramIndex.Windows(Prepare(token), N), slot,
                                  opts.minCoefficient, KeyNgrams(), Admits(opts))
  {
  }

  /** Every hit is an indexed slot, so it points at a catalogued person. */
  lemma HitsCatalogued(c: Cache, token: string, opts: LegacySearchOptions)
    requires Valid(c)
    ensures forall slot :: slot in WordHits(c, token, opts) ==> slot.personId in c.catalog
  {
    forall slot | slot in WordHits(c, token, opts)
      ensures slot.personId in c.catalog
    {
      WordHitsMatch(c, token, opts, slot);
    }
  }

  /** Every hit is an indexed slot, so it is among its person's names when the cache is owned. */
  lemma HitsOwned(c: Cache, token: string, opts: LegacySearchOptions)
    requires Owned(c)
    ensures forall slot :: slot in WordHits(c, token, opts) ==>
              slot.personId in c.catalog && slot in c.catalog[slot.personId].names
  {
    forall slot | slot in WordHits(c, token, opts)
      ensures slot.personId in c.catalog && slot in c.catalog[slot.personId].names
    {
      WordHitsMatch(c, token, opts, slot);
    }
  }

  // ---------------------------------------------------------------------------------------------
  // The accumulator

  /** A key of the accumulator: the person and its `SearchResultModel`. */
  datatype Entry = Entry(person: PersonModel, result: LegacyResult)

  /** The words of a person's names. */
  function NamesOf(p: PersonModel): (r: seq<string>)
    ensures |r| == |p.names|
    ensures forall i :: 0 <= i < |r| ==> r[i] == p.names[i].name
  {
    seq(|p.names|, i requires 0 <= i < |p.names| => p.names[i].name)
  }

  /** `GroupNamesToPersons`: the hits under their owner's id, each valued with the number of the
      person's names with the same word, the input word's index and the hit's coefficient; the average
      starts at 0. */
  function GroupNamesToPersons(c: Cache, hits: map<NameSlot, NgramIndex.Match>, k: int): (r: map<int, Entry>) {
    var ids := set slot | slot in hits :: slot.personId;
    map id | id in ids && id in c.catalog ::
      var p := c.catalog[id];
      Entry(p, LegacyResult(0.0, map slot | slot in hits && slot.personId == id ::
                                   LegacyNameValue(Occurrences(NamesOf(p), slot.name), Some(k), hits[slot].coefficient)))
  }

  /** What grouping gives: one entry per owner of a hit, holding that owner's hits. */
  lemma GroupContents(c: Cache, hits: map<NameSlot, NgramIndex.Match>, k: int)
    ensures var r := GroupNamesToPersons(c, hits, k);
            forall id :: id in r <==> id in c.catalog && exists slot :: slot in hits && slot.personId == id
    ensures var r := GroupNamesToPersons(c, hits, k);
            forall id :: id in r ==> r[id].person == c.catalog[id] && r[id].result.avgCoefficient == 0.0
    ensures var r := GroupNamesToPersons(c, hits, k);
            forall id, slot :: id in r ==> (slot in r[id].result.names <==> slot in hits && slot.personId == id)
    ensures var r := GroupNamesToPersons(c, hits, k);
            forall id, slot :: id in r && slot in r[id].result.names ==>
              r[id].result.names[slot] ==
              LegacyNameValue(Occurrences(NamesOf(c.catalog[id]), slot.name), Some(k), hits[slot].coefficient)
  {
    var r := GroupNamesToPersons(c, hits, k);
    forall id | id in c.catalog && exists slot :: slot in hits && slot.personId == id
      ensures id in r
    {
      var slot :| slot in hits && slot.personId == id;
      assert id in set slot | slot in hits :: slot.personId;
    }
  }

  /** The entry `GetValueRefOrAddDefault` adds for a name not yet in a person's result: no count, no
      input word, coefficient 0. */
  const Unmatched: LegacyNameValue := LegacyNameValue(0, None, 0.0)

  /** The body of the inner loop of `SearchWord` for one name: a missing name gets the default entry
      (and nothing else, even when the word found it); an existing one that no earlier word matched
      takes the index and coefficient of this word, when this word found it. */
  function UpdateName(names: map<NameSlot, LegacyNameValue>, slot: NameSlot, hits: map<NameSlot, NgramIndex.Match>,
                      k: int): map<NameSlot, LegacyNameValue>
  {
    if slot !in names then names[slot := Unmatched]
    else if slot in hits && names[slot].inputWordIndex.None? then
      names[slot := LegacyNameValue(names[slot].count, Some(k), hits[slot].coefficient)]
    else names
  }

  /** The inner loop of `SearchWord` over the names of one person, in order. */
  function UpdateNames(names: map<NameSlot, LegacyNameValue>, slots: seq<NameSlot>,
                       hits: map<NameSlot, NgramIndex.Match>, k: int): map<NameSlot, LegacyNameValue>
    decreases |slots|
  {
    if slots == [] then names
    else UpdateNames(UpdateName(names, slots[0], hits, k), slots[1..], hits, k)
  }

  /** Walking the names touches only them: the keys become the old ones and the names, and every
      other entry stays. */
  lemma {:induction false} UpdateNamesFrame(names: map<NameSlot, LegacyNameValue>, slots: seq<NameSlot>,
                                            hits: map<NameSlot, NgramIndex.Match>, k: int)
    ensures var r := UpdateNames(names, slots, hits, k);
            forall slot :: slot in r <==> slot in names || slot in slots
    ensures var r := UpdateNames(names, slots, hits, k);
            forall slot :: slot in names && slot !in slots ==> r[slot] == names[slot]
    decreases |slots|
  {
    if slots != [] {
      UpdateNamesFrame(UpdateName(names, slots[0], hits, k), slots[1..], hits, k);
      assert forall slot :: slot in slots <==> slot == slots[0] || slot in slots[1..];
    }
  }

  /** Walking distinct names updates each of them once, as `UpdateName` does. */
  lemma {:induction false} UpdateNamesEach(names: map<NameSlot, LegacyNameValue>, slots: seq<NameSlot>,
                                           hits: map<NameSlot, NgramIndex.Match>, k: int)
    requires DistinctSlots(slots)
    ensures var r := UpdateNames(names, slots, hits, k);
            forall i :: 0 <= i < |slots| ==> slots[i] in r && r[slots[i]] == UpdateName(names, slots[i], hits, k)[slots[i]]
    decreases |slots|
  {
    if slots != [] {
      var names' := UpdateName(names, slots[0], hits, k);
      DistinctTail(slots);
      UpdateNamesEach(names', slots[1..], hits, k);
      UpdateNamesFrame(names', slots[1..], hits, k);
      var r := UpdateNames(names, slots, hits, k);
      forall i | 0 <= i < |slots|
        ensures slots[i] in r && r[slots[i]] == UpdateName(names, slots[i], hits, k)[slots[i]]
      {
        if i > 0 {
          assert slots[i] == slots[1..][i - 1];
          assert slots[i] != slots[0];
        }
      }
    }
  }

  /** A person one of whose names the word found. */
  predicate NameHit(p: PersonModel, hits: map<NameSlot, NgramIndex.Match>) {
    exists i :: 0 <= i < |p.names| && p.names[i] in hits
  }

  /** The outer loop of `SearchWord`: a person none of whose names the word found is removed; every
      person's names are updated. */
  function Prune(acc: map<int, Entry>, hits: map<NameSlot, NgramIndex.Match>, k: int): map<int, Entry> {
    map id | id in acc && NameHit(acc[id].person, hits) ::
      var e := acc[id];
      Entry(e.person, e.result.(names := UpdateNames(e.result.names, e.person.names, hits, k)))
  }

  /** `SearchWord` on the hits of input word `k`: no hits stop the search (`None`); otherwise the
      accumulator, or the grouped hits when there is none yet, with the persons the word did not find
      removed. */
  function SearchWord(c: Cache, hits: map<NameSlot, NgramIndex.Match>, k: int, acc: Option<map<int, Entry>>)
    : (r: Option<map<int, Entry>>)
    ensures r.None? <==> hits == map[]
  {
    if hits == map[] then None
    else Some(Prune(if acc.None? then GroupNamesToPersons(c, hits, k) else acc.value, hits, k))
  }

  // ---------------------------------------------------------------------------------------------
  // The loop over the input words

  /** The lookup of the loop: `GetMatches` on each prepared input word with the options. */
  function Lookup(c: Cache, opts: LegacySearchOptions): string -> map<NameSlot, NgramIndex.Match> {
    (w: string) => WordHits(c, w, opts)
  }

  /** The loop of `Search` from input word `k` on, `find` giving each word's hits and the word's
      position kept as a mathematical counter: `None` is the null result (no input words, a word with
      no hits, or an emptied accumulator). */
  function Accumulate(c: Cache, words: seq<string>, find: string -> map<NameSlot, NgramIndex.Match>, k: nat,
                      acc: Option<map<int, Entry>>): Option<map<int, Entry>>
    requires k <= |words|
    decreases |words| - k
  {
    if k == |words| then acc
    else
      match SearchWord(c, find(words[k]), k, acc)
      case None => None
      case Some(m) => if m == map[] then None else Accumulate(c, words, find, k + 1, Some(m))
  }

  /** Person `id` is catalogued and the hits hold one of its names. */
  ghost predicate Matched(c: Cache, hits: map<NameSlot, NgramIndex.Match>, id: int) {
    id in c.catalog && NameHit(c.catalog[id], hits)
  }

  /** Each of the first `k` input words found one of the names of person `id`. */
  ghost predicate MatchesWords(c: Cache, words: seq<string>, find: string -> map<NameSlot, NgramIndex.Match>,
                               k: nat, id: int)
    requires k <= |words|
  {
    forall j :: 0 <= j < k ==> Matched(c, find(words[j]), id)
  }

  lemma MatchesWordsSnoc(c: Cache, words: seq<string>, find: string -> map<NameSlot, NgramIndex.Match>, k: nat)
    requires k < |words|
    ensures forall id :: MatchesWords(c, words, find, k + 1, id) <==>
                         MatchesWords(c, words, find, k, id) && Matched(c, find(words[k]), id)
    ensures forall id :: MatchesWords(c, words, find, |words|, id) ==> MatchesWords(c, words, find, k + 1, id)
  {
  }

  /** The accumulator holds catalogued persons, each with at least one name entry. */
  ghost predicate FromCatalog(c: Cache, acc: map<int, Entry>) {
    forall id :: id in acc ==> id in c.catalog && acc[id].person == c.catalog[id] && acc[id].result.names != map[]
  }

  /** A catalogued person's slots are distinct and its own. */
  lemma CataloguedSlots(c: Cache, id: int)
    requires Valid(c) && id in c.catalog
    ensures DistinctSlots(c.catalog[id].names)
    ensures forall i :: 0 <= i < |c.catalog[id].names| ==> c.catalog[id].names[i].personId == id
  {
    var p := c.catalog[id];
    assert Ingested(p, id);
  }

  /** One word keeps, of the accumulator (or of everyone when there is none yet), exactly the persons
      it found by a name. */
  lemma SearchWordKeeps(c: Cache, hits: map<NameSlot, NgramIndex.Match>, k: int, acc: Option<map<int, Entry>>)
    requires Valid(c)
    requires acc.Some? ==> FromCatalog(c, acc.value)
    ensures var r := SearchWord(c, hits, k, acc);
            r.Some? ==> FromCatalog(c, r.value)
    ensures var r := SearchWord(c, hits, k, acc);
            r.Some? ==> forall id :: id in r.value <==> (acc.None? || id in acc.value) && Matched(c, hits, id)
  {
    var r := SearchWord(c, hits, k, acc);
    if r.Some? {
      var base := if acc.None? then GroupNamesToPersons(c, hits, k) else acc.value;
      if acc.None? {
        GroupContents(c, hits, k);
      }
      forall id | id in r.value
        ensures id in c.catalog && r.value[id].person == c.catalog[id] && r.value[id].result.names != map[]
      {
        CataloguedSlots(c, id);
        UpdateNamesFrame(base[id].result.names, base[id].person.names, hits, k);
        if acc.None? {
          var slot :| slot in hits && slot.personId == id;
          assert slot in base[id].result.names;
        }
      }
      forall id | (acc.None? || id in acc.value) && Matched(c, hits, id)
        ensures id in r.value
      {
        if acc.None? {
          CataloguedSlots(c, id);
          var i :| 0 <= i < |c.catalog[id].names| && c.catalog[id].names[i] in hits;
          assert c.catalog[id].names[i].personId == id;
        }
      }
    }
  }

  /** The loop keeps exactly the persons every input word found by one of their names, and gives null
      when there are no input words or no such person. */
  lemma {:induction false} AccumulateSurvivors(c: Cache, words: seq<string>, find: string -> map<NameSlot, NgramIndex.Match>,
                                               k: nat, acc: Option<map<int, Entry>>)
    requires Valid(c) && k <= |words|
    requires k == 0 ==> acc.None?
    requires k > 0 ==> && acc.Some? && acc.value != map[] && FromCatalog(c, acc.value)
                       && forall id :: id in acc.value <==> MatchesWords(c, words, find, k, id)
    ensures var r := Accumulate(c, words, find, k, acc);
            r.None? <==> |words| == 0 || !exists id :: MatchesWords(c, words, find, |words|, id)
    ensures var r := Accumulate(c, words, find, k, acc);
            r.Some? ==> FromCatalog(c, r.value) && forall id :: id in r.value <==> MatchesWords(c, words, find, |words|, id)
    decreases |words| - k
  {
    if k == |words| {
      if k > 0 {
        PickKey(acc.value.Keys);
        var id :| id in acc.value;
      }
    } else {
      var hits := find(words[k]);
      SearchWordKeeps(c, hits, k, acc);
      MatchesWordsSnoc(c, words, find, k);
      var step := SearchWord(c, hits, k, acc);
      if step.None? {
        assert forall id :: !Matched(c, hits, id);
      } else if step.value != map[] {
        AccumulateSurvivors(c, words, find, k + 1, step);
      }
    }
  }

  // ---------------------------------------------------------------------------------------------
  // What the survivors' names hold

  /** Every hit of every input word is one of the names of the person it belongs to. */
  ghost predicate OwnedHits(c: Cache, words: seq<string>, find: string -> map<NameSlot, NgramIndex.Match>) {
    forall j, slot :: 0 <= j < |words| && slot in find(words[j]) ==>
      slot.personId in c.catalog && slot in c.catalog[slot.personId].names
  }

  /** With every indexed slot among its person's names, so is every hit of the lookup. */
  lemma LookupOwned(c: Cache, words: seq<string>, opts: LegacySearchOptions)
    requires Owned(c)
    ensures OwnedHits(c, words, Lookup(c, opts))
  {
    forall j | 0 <= j < |words|
      ensures forall slot :: slot in Lookup(c, opts)(words[j]) ==>
                slot.personId in c.catalog && slot in c.catalog[slot.personId].names
    {
      HitsOwned(c, words[j], opts);
    }
  }

  /** The first of the input words `0 .. k-1` whose hits hold `slot`, if any. */
  function FirstHit(words: seq<string>, find: string -> map<NameSlot, NgramIndex.Match>, slot: NameSlot, k: nat)
    : (r: Option<nat>)
    requires k <= |words|
    ensures r.Some? ==> r.value < k && slot in find(words[r.value])
    ensures r.Some? ==> forall j :: 0 <= j < r.value ==> slot !in find(words[j])
    ensures r.None? ==> forall j :: 0 <= j < k ==> slot !in find(words[j])
  {
    if k == 0 then None
    else match FirstHit(words, find, slot, k - 1)
      case Some(j) => Some(j)
      case None => if slot in find(words[k - 1]) then Some(k - 1) else None
  }

  /** The entry of name `slot` of person `p` after input words `0 .. k-1`: the default entry when none
      of them found it; otherwise the index and coefficient of the first word that did, with the count
      of `p`'s names sharing the word only when that first word is word 0 (grouping sets the count,
      the later updates do not). */
  function ExpectedName(p: PersonModel, words: seq<string>, find: string -> map<NameSlot, NgramIndex.Match>,
                        slot: NameSlot, k: nat): LegacyNameValue
    requires k <= |words|
  {
    match FirstHit(words, find, slot, k)
    case None => Unmatched
    case Some(j) =>
      LegacyNameValue(if j == 0 then Occurrences(NamesOf(p), slot.name) else 0, Some(j), find(words[j])[slot].coefficient)
  }

  /** Each survivor's result holds exactly its person's names, each with its expected entry. */
  ghost predicate NamesAsExpected(words: seq<string>, find: string -> map<NameSlot, NgramIndex.Match>, k: nat,
                                  acc: map<int, Entry>)
    requires k <= |words|
  {
    forall id :: id in acc ==>
      && (forall slot :: slot in acc[id].result.names <==> slot in acc[id].person.names)
      && (forall slot :: slot in acc[id].person.names ==>
            acc[id].result.names[slot] == ExpectedName(acc[id].person, words, find, slot, k))
  }

  /** Word 0 on a person whose grouped names are exactly its names the word found: adding its other
      names as default entries gives every name its expected entry after one word. */
  lemma GroupedNamesAsExpected(p: PersonModel, names: map<NameSlot, LegacyNameValue>, words: seq<string>,
                               find: string -> map<NameSlot, NgramIndex.Match>)
    requires words != [] && DistinctSlots(p.names)
    requires forall slot :: slot in names <==> slot in p.names && slot in find(words[0])
    requires forall slot :: slot in names ==>
               names[slot] == LegacyNameValue(Occurrences(NamesOf(p), slot.name), Some(0), find(words[0])[slot].coefficient)
    ensures var r := UpdateNames(names, p.names, find(words[0]), 0);
            && (forall slot :: slot in r <==> slot in p.names)
            && (forall slot :: slot in p.names ==> r[slot] == ExpectedName(p, words, find, slot, 1))
  {
    var hits := find(words[0]);
    UpdateNamesFrame(names, p.names, hits, 0);
    UpdateNamesEach(names, p.names, hits, 0);
    var r := UpdateNames(names, p.names, hits, 0);
    forall slot | slot in p.names
      ensures r[slot] == ExpectedName(p, words, find, slot, 1)
    {
      var i :| 0 <= i < |p.names| && p.names[i] == slot;
      assert r[slot] == UpdateName(names, slot, hits, 0)[slot];
      FirstWordEntry(p, names, words, find, slot);
    }
  }

  /** Word 0 on one name: a grouped name keeps its entry, any other gets the default one. */
  lemma FirstWordEntry(p: PersonModel, names: map<NameSlot, LegacyNameValue>, words: seq<string>,
                       find: string -> map<NameSlot, NgramIndex.Match>, slot: NameSlot)
    requires words != [] && slot in p.names
    requires slot in names <==> slot in find(words[0])
    requires slot in names ==>
               names[slot] == LegacyNameValue(Occurrences(NamesOf(p), slot.name), Some(0), find(words[0])[slot].coefficient)
    ensures UpdateName(names, slot, find(words[0]), 0)[slot] == ExpectedName(p, words, find, slot, 1)
  {
  }

  /** Grouping the hits of word 0 gives a person it found exactly its names the word found. */
  lemma GroupNamesAsExpected(c: Cache, words: seq<string>, find: string -> map<NameSlot, NgramIndex.Match>, id: int)
    requires Valid(c) && words != [] && OwnedHits(c, words, find)
    requires id in GroupNamesToPersons(c, find(words[0]), 0)
    ensures var e := GroupNamesToPersons(c, find(words[0]), 0)[id];
            var r := UpdateNames(e.result.names, e.person.names, find(words[0]), 0);
            && (forall slot :: slot in r <==> slot in e.person.names)
            && (forall slot :: slot in e.person.names ==> r[slot] == ExpectedName(e.person, words, find, slot, 1))
  {
    var hits := find(words[0]);
    var e := GroupNamesToPersons(c, hits, 0)[id];
    GroupContents(c, hits, 0);
    CataloguedSlots(c, id);
    forall slot
      ensures slot in e.result.names <==> slot in e.person.names && slot in hits
    {
      if slot in e.person.names {
        var i :| 0 <= i < |e.person.names| && e.person.names[i] == slot;
      }
    }
    GroupedNamesAsExpected(e.person, e.result.names, words, find);
  }

  /** A later word on a person whose names hold their expected entries: a name no earlier word found
      takes this word's index and coefficient when this word found it, so every name holds its
      expected entry after one more word. */
  lemma UpdateNamesAsExpected(p: PersonModel, names: map<NameSlot, LegacyNameValue>, words: seq<string>,
                              find: string -> map<NameSlot, NgramIndex.Match>, k: nat)
    requires 0 < k < |words| && DistinctSlots(p.names)
    requires forall slot :: slot in names <==> slot in p.names
    requires forall slot :: slot in p.names ==> names[slot] == ExpectedName(p, words, find, slot, k)
    ensures var r := UpdateNames(names, p.names, find(words[k]), k);
            && (forall slot :: slot in r <==> slot in p.names)
            && (forall slot :: slot in p.names ==> r[slot] == ExpectedName(p, words, find, slot, k + 1))
  {
    var hits := find(words[k]);
    UpdateNamesFrame(names, p.names, hits, k);
    UpdateNamesEach(names, p.names, hits, k);
    var r := UpdateNames(names, p.names, hits, k);
    forall slot | slot in p.names
      ensures r[slot] == ExpectedName(p, words, find, slot, k + 1)
    {
      var i :| 0 <= i < |p.names| && p.names[i] == slot;
      assert r[slot] == UpdateName(names, slot, hits, k)[slot];
      LaterWordEntry(p, names, words, find, k, slot);
    }
  }

  /** A later word on one name: a name no earlier word found takes this word's index and coefficient
      when this word found it; any other keeps its entry. */
  lemma LaterWordEntry(p: PersonModel, names: map<NameSlot, LegacyNameValue>, words: seq<string>,
                       find: string -> map<NameSlot, NgramIndex.Match>, k: nat, slot: NameSlot)
    requires 0 < k < |words| && slot in names
    requires names[slot] == ExpectedName(p, words, find, slot, k)
    ensures UpdateName(names, slot, find(words[k]), k)[slot] == ExpectedName(p, words, find, slot, k + 1)
  {
  }

  /** One word keeps every survivor's names at their expected entries. */
  lemma SearchWordNames(c: Cache, words: seq<string>, find: string -> map<NameSlot, NgramIndex.Match>, k: nat,
                        acc: Option<map<int, Entry>>)
    requires Valid(c) && k < |words| && OwnedHits(c, words, find)
    requires k == 0 ==> acc.None?
    requires k > 0 ==> acc.Some? && FromCatalog(c, acc.value) && NamesAsExpected(words, find, k, acc.value)
    ensures var r := SearchWord(c, find(words[k]), k, acc);
            r.Some? ==> NamesAsExpected(words, find, k + 1, r.value)
  {
    var hits := find(words[k]);
    var r := SearchWord(c, hits, k, acc);
    if r.Some? {
      var base := if acc.None? then GroupNamesToPersons(c, hits, k) else acc.value;
      forall id | id in r.value
        ensures && (forall slot :: slot in r.value[id].result.names <==> slot in r.value[id].person.names)
                && (forall slot :: slot in r.value[id].person.names ==>
                      r.value[id].result.names[slot] == ExpectedName(r.value[id].person, words, find, slot, k + 1))
      {
        assert r.value[id] == Entry(base[id].person,
                                    base[id].result.(names := UpdateNames(base[id].result.names, base[id].person.names, hits, k)));
        if k == 0 {
          GroupNamesAsExpected(c, words, find, id);
        } else {
          CataloguedSlots(c, id);
          UpdateNamesAsExpected(base[id].person, base[id].result.names, words, find, k);
        }
      }
    }
  }

  /** Through the whole loop, every survivor's names hold their expected entries: each name carries
      the index and coefficient of the first input word that found it. */
  lemma {:induction false} AccumulateNames(c: Cache, words: seq<string>, find: string -> map<NameSlot, NgramIndex.Match>,
                                           k: nat, acc: Option<map<int, Entry>>)
    requires Valid(c) && k <= |words| && OwnedHits(c, words, find)
    requires k == 0 ==> acc.None?
    requires k > 0 ==> acc.Some? && FromCatalog(c, acc.value) && NamesAsExpected(words, find, k, acc.value)
    ensures var r := Accumulate(c, words, find, k, acc);
            r.Some? ==> NamesAsExpected(words, find, |words|, r.value)
    decreases |words| - k
  {
    if k < |words| {
      SearchWordNames(c, words, find, k, acc);
      SearchWordKeeps(c, find(words[k]), k, acc);
      var step := SearchWord(c, find(words[k]), k, acc);
      if step.Some? && step.value != map[] {
        AccumulateNames(c, words, find, k + 1, step);
      }
    }
  }

  // ---------------------------------------------------------------------------------------------
  // Averaging and ordering

  /** The coefficient of a name's entry. */
  function LegacyCoefficient(v: LegacyNameValue): real {
    v.coefficient
  }

  /** The average coefficient of a survivor's names, over the coefficients in enumeration order. */
  ghost function Average(e: Entry): Result<real> {
    Mean(Enumerate(e.result.names, LegacyCoefficient))
  }

  /** A survivor with its average stored in its result, paired with that average. */
  ghost function ScoreOf(e: Entry): (r: Scored<Entry>)
    requires e.result.names != map[]
    ensures Average(e) == Success(r.avg)
    ensures r.item == Entry(e.person, e.result.(avgCoefficient := r.avg))
  {
    EnumerateSize(e.result.names, LegacyCoefficient);
    var a := Average(e).value;
    Scored(Entry(e.person, e.result.(avgCoefficient := a)), a)
  }

  /** Every survivor, averaged. */
  ghost function Scores(acc: map<int, Entry>): (r: map<int, Scored<Entry>>)
    requires forall id :: id in acc ==> acc[id].result.names != map[]
    ensures r.Keys == acc.Keys
  {
    map id | id in acc :: ScoreOf(acc[id])
  }

  /** A map that averages every survivor under its own id is `Scores`. */
  lemma ScoresPerId(acc: map<int, Entry>, m: map<int, Scored<Entry>>)
    requires forall id :: id in acc ==> acc[id].result.names != map[]
    requires m.Keys == acc.Keys && forall id :: id in m ==> m[id] == ScoreOf(acc[id])
    ensures m == Scores(acc)
  {
    var r := Scores(acc);
    assert m.Keys == r.Keys;
    forall id | id in m
      ensures m[id] == r[id]
    {
    }
  }

  /** `Average(x => x.Value.Coefficient)` over one survivor's names, stored as its `AvgCoefficient`. */
  method Score(e: Entry) returns (s: Scored<Entry>)
    requires e.result.names != map[]
    ensures s == ScoreOf(e)
  {
    var cs := Values(e.result.names, LegacyCoefficient);
    AveragesIgnoreOrder(cs, Enumerate(e.result.names, LegacyCoefficient), 0);
    var a := Mean(cs).value;
    s := Scored(Entry(e.person, e.result.(avgCoefficient := a)), a);
  }

  /** The first loop after the words: each survivor's `AvgCoefficient` becomes the average of its
      names' coefficients (no survivor has an empty names map, so `Average` never throws). */
  method AverageAll(acc: map<int, Entry>) returns (m: map<int, Scored<Entry>>)
    requires forall id :: id in acc ==> acc[id].result.names != map[]
    ensures m.Keys == acc.Keys
    ensures forall id :: id in m ==> m[id] == ScoreOf(acc[id])
  {
    m := map[];
    var todo := acc.Keys;
    while todo != {}
      invariant todo <= acc.Keys
      invariant m.Keys == acc.Keys - todo
      invariant forall id :: id in m ==> m[id] == ScoreOf(acc[id])
      decreases |todo|
    {
      PickKey(todo);
      var id :| id in todo;
      var scored := Score(acc[id]);
      m := m[id := scored];
      todo := todo - {id};
    }
  }

  /** The options a search runs with. */
  function OptionsOf(searchOptions: Option<LegacySearchOptions>): LegacySearchOptions {
    searchOptions.GetOr(DefaultLegacySearchOptions)
  }

  /** `Search(input, searchOptions)`: null when there are no input words or no person is found by one
      of its names by every input word; otherwise the survivors whose average reaches the minimum
      average, best first. The word loop is the corrected `Accumulate`, which visits every input word;
      the code's `sbyte` counter is `AccumulateAsWritten`, and the two agree up to 127 words
      (`AsWrittenAgrees`). */
  method Search(c: Cache, input: string, searchOptions: Option<LegacySearchOptions>) returns (r: Option<seq<Scored<Entry>>>)
    requires Valid(c)
    ensures var words := NameTokens(input);
            var find := Lookup(c, OptionsOf(searchOptions));
            r.None? <==> words == [] || !exists id :: MatchesWords(c, words, find, |words|, id)
    ensures var words := NameTokens(input);
            var find := Lookup(c, OptionsOf(searchOptions));
            var acc := Accumulate(c, words, find, 0, None);
            r.Some? ==> && acc.Some? && FromCatalog(c, acc.value)
                        && (forall id :: id in acc.value <==> MatchesWords(c, words, find, |words|, id))
                        && SortedByAverage(r.value)
                        && Selects(Scores(acc.value), acc.value.Keys, OptionsOf(searchOptions).minAverageCoefficient, r.value)
    ensures var words := NameTokens(input);
            var find := Lookup(c, OptionsOf(searchOptions));
            var acc := Accumulate(c, words, find, 0, None);
            r.Some? && Owned(c) ==> NamesAsExpected(words, find, |words|, acc.value)
  {
    var opts := OptionsOf(searchOptions);
    var words := NameTokens(input);
    var find := Lookup(c, opts);
    var acc := Accumulate(c, words, find, 0, None);
    AccumulateSurvivors(c, words, find, 0, None);
    if Owned(c) {
      LookupOwned(c, words, opts);
      AccumulateNames(c, words, find, 0, None);
    }
    if acc.None? {
      return None;
    }
    var scored := AverageAll(acc.value);
    ScoresPerId(acc.value, scored);
    var out := SelectAndSort(scored, opts.minAverageCoefficient);
    return Some(out);
  }

  // ---------------------------------------------------------------------------------------------
  // The loop as written: an `sbyte` counter

  /** `inputWordIndex++` on an `sbyte`: the next value modulo 256, kept in -128..127, so 127 wraps to
      -128. */
  function SByteIncrement(i: int): (r: int)
    requires -128 <= i <= 127
    ensures -128 <= r <= 127 && (r - (i + 1)) % 256 == 0
  {
    if i == 127 then -128 else i + 1
  }

  /** The loop of `Search` with its `sbyte` counter: `inputWordIndex < inputWords.Length` is checked
      on the wrapped value, and `inputWords[-128]` throws `IndexOutOfRangeException`. */
  function AccumulateAsWritten(c: Cache, words: seq<string>, find: string -> map<NameSlot, NgramIndex.Match>,
                               i: int, acc: Option<map<int, Entry>>): Result<Option<map<int, Entry>>>
    requires -128 <= i <= 127
    decreases if i < 0 then 0 else 128 - i
  {
    if i >= |words| then Success(acc)
    else if i < 0 then Failure(IndexOutOfRange)
    else
      match SearchWord(c, find(words[i]), i, acc)
      case None => Success(None)
      case Some(m) => if m == map[] then Success(None) else AccumulateAsWritten(c, words, find, SByteIncrement(i), Some(m))
  }

  /** Up to 127 input words, the counter never wraps and the loop as written is the loop. */
  lemma {:induction false} AsWrittenAgrees(c: Cache, words: seq<string>, find: string -> map<NameSlot, NgramIndex.Match>,
                                           k: nat, acc: Option<map<int, Entry>>)
    requires |words| <= MaxNameWords && k <= |words|
    ensures AccumulateAsWritten(c, words, find, k, acc) == Success(Accumulate(c, words, find, k, acc))
    decreases |words| - k
  {
    if k < |words| {
      match SearchWord(c, find(words[k]), k, acc)
      case None =>
      case Some(m) =>
        if m != map[] {
          AsWrittenAgrees(c, words, find, k + 1, Some(m));
        }
    }
  }

  /** From 128 input words on, the loop as written throws exactly when the first 128 words leave
      somebody in the accumulator: the counter wraps after word 127 and indexes the words with -128. */
  lemma {:induction false} AsWrittenWraps(c: Cache, words: seq<string>, find: string -> map<NameSlot, NgramIndex.Match>,
                                          k: nat, acc: Option<map<int, Entry>>)
    requires |words| > MaxNameWords && k <= MaxNameWords
    ensures AccumulateAsWritten(c, words, find, k, acc) ==
            if Accumulate(c, words[..128], find, k, acc).Some? then Failure(IndexOutOfRange) else Success(None)
    decreases MaxNameWords - k
  {
    assert words[..128][k] == words[k];
    match SearchWord(c, find(words[k]), k, acc)
    case None =>
    case Some(m) =>
      if m != map[] && k < MaxNameWords {
        AsWrittenWraps(c, words, find, k + 1, Some(m));
      }
  }

  // ---------------------------------------------------------------------------------------------
  // A repeated name

  /** After a successful `Add` of a name with tokens, each token of the name, looked up by itself,
      hits its slot whenever the filter lets the person through: every window of the prepared word
      finds the slot, so its coefficient is 1. */
  lemma AddedNameIsHit(c: Cache, c': Cache, id: int, fullName: string, birthday: Option<Date>, i: nat,
                       opts: LegacySearchOptions)
    requires Ingests(c, c', id, fullName, birthday)
    requires i < |NameTokens(fullName)| && Passes(opts, c'.catalog[id])
    ensures c'.catalog[id].names[i] in WordHits(c', NameTokens(fullName)[i], opts)
  {
    var p := c'.catalog[id];
    var t := NameTokens(fullName)[i];
    var slot := p.names[i];
    assert slot.name == Prepare(t);
    var windows := NgramIndex.Windows(Prepare(t), N);
    SlotWindowsHit(c'.index, p, i, opts);
    NgramIndex.HitsAll(c'.index, windows, slot, Admits(opts));
    NgramIndex.SelfCoefficient(|windows|);
    WordHitsMatch(c', t, opts, slot);
  }

  /** Every window of an indexed slot's word finds the slot, valued with a person the filter passes. */
  lemma SlotWindowsHit(index: NgramIndex.Buckets<NameSlot, PersonModel>, p: PersonModel, i: nat, opts: LegacySearchOptions)
    requires i < |p.names| && N - 1 <= |p.names[i].name|
    requires Indexed(index, N, p.names, p) && Passes(opts, p)
    ensures NgramIndex.AllWindowsHit(index, NgramIndex.Windows(p.names[i].name, N), p.names[i], Admits(opts))
  {
    var windows := NgramIndex.Windows(p.names[i].name, N);
    forall j | 0 <= j < |windows|
      ensures windows[j] in index && p.names[i] in index[windows[j]] && Admits(opts)(p.names[i], index[windows[j]][p.names[i]])
    {
      assert windows[j] in windows;
    }
  }

  /** A person every input word finds by one of its names survives the loop. */
  lemma EveryWordMatchedSurvives(c: Cache, words: seq<string>, find: string -> map<NameSlot, NgramIndex.Match>, id: int)
    requires Valid(c) && words != []
    requires forall j :: 0 <= j < |words| ==> Matched(c, find(words[j]), id)
    ensures Accumulate(c, words, find, 0, None).Some?
    ensures id in Accumulate(c, words, find, 0, None).value
  {
    assert MatchesWords(c, words, find, |words|, id);
    AccumulateSurvivors(c, words, find, 0, None);
  }

  /** With 128 or more input words each finding one person by a name, the loop as written throws,
      while the corrected loop keeps the person. */
  lemma EveryWordMatchedThrows(c: Cache, words: seq<string>, find: string -> map<NameSlot, NgramIndex.Match>, id: int)
    requires Valid(c) && |words| > MaxNameWords
    requires forall j :: 0 <= j < |words| ==> Matched(c, find(words[j]), id)
    ensures Accumulate(c, words, find, 0, None).Some?
    ensures AccumulateAsWritten(c, words, find, 0, None) == Failure(IndexOutOfRange)
  {
    EveryWordMatchedSurvives(c, words, find, id);
    EveryWordMatchedSurvives(c, words[..128], find, id);
    AsWrittenWraps(c, words, find, 0, None);
  }

  /** "IVAN" is a token of its own. */
  lemma IvanIsToken()
    ensures WordStorage.IsToken("IVAN", WordStorage.DefaultSeparators)
    ensures NameTokens("IVAN") == ["IVAN"]
  {
    WordStorage.TokensOfJoin(["IVAN"], WordStorage.DefaultSeparators);
    assert WordStorage.Join(["IVAN"]) == "IVAN";
  }

  /** "IVAN IVAN ... IVAN", 128 times, splits into 128 words. */
  lemma IvansSplit(words: seq<string>)
    requires words == NameTokens(WordStorage.Join(seq(128, _ => "IVAN")))
    ensures |words| == 128
    ensures forall j :: 0 <= j < |words| ==> words[j] == "IVAN"
  {
    var ivans: seq<string> := seq(128, _ => "IVAN");
    IvanIsToken();
    WordStorage.TokensOfJoin(ivans, WordStorage.DefaultSeparators);
    assert words == ivans;
  }

  /** A cache holding one person named "IVAN" finds that person for the word "IVAN". */
  lemma IvanCache(c: Cache)
    requires c == Ingest(EmptyCache, 1, "IVAN", None)
    ensures Valid(c)
    ensures Matched(c, Lookup(c, DefaultLegacySearchOptions)("IVAN"), 1)
  {
    var opts := DefaultLegacySearchOptions;
    IvanIsToken();
    EmptyCacheValid();
    IngestIngests(EmptyCache, 1, "IVAN", None);
    AddedNameIsHit(EmptyCache, c, 1, "IVAN", None, 0, opts);
    assert c.catalog[1].names[0] in Lookup(c, opts)("IVAN");
  }

  /** The wrap-around, on a concrete input: a cache holding one person named "IVAN" and the input
      "IVAN IVAN ... IVAN" of 128 words. Every word finds the person, so the corrected loop keeps it,
      while the loop as written throws `IndexOutOfRangeException`. */
  lemma SByteCounterWraps(c: Cache, words: seq<string>)
    requires c == Ingest(EmptyCache, 1, "IVAN", None)
    requires words == NameTokens(WordStorage.Join(seq(128, _ => "IVAN")))
    ensures |words| == 128
    ensures Accumulate(c, words, Lookup(c, DefaultLegacySearchOptions), 0, None).Some?
    ensures AccumulateAsWritten(c, words, Lookup(c, DefaultLegacySearchOptions), 0, None) == Failure(IndexOutOfRange)
  {
    IvansSplit(words);
    IvanCache(c);
    var find := Lookup(c, DefaultLegacySearchOptions);
    EveryWordMatchedThrows(c, words, find, 1);
  }
}
