/** `PersonSearcherService`: ingestion of persons into the n-gram index, and the search pipeline: one
    index lookup per input word, the hits grouped by person, the per-word person maps intersected, each
    surviving person's slots resolved, averaged, filtered and ordered. The parallel loops are read as
    sequential ones. */
module PersonSearcher {
  import opened Wrappers
  import opened Text
  import WordStorage
  import NgramIndex
  import opened Domain
  import opened SlotIndex
  import opened NamesResolution
  import opened BestMatch
  import opened Ranking
  import opened ResultOrdering

  // ---------------------------------------------------------------------------------------------
  // State

  /** The searcher: the index configuration, the word store, the bucket table (slot -> owning person),
      and the persons the slots refer to, by id. */
  datatype Searcher = Searcher(cfg: NgramIndex.Config, store: WordStorage.Store,
                               index: NgramIndex.Buckets<NameSlot, PersonModel>, catalog: map<int, PersonModel>)

  /** What every operation keeps: the padding is installed, catalogued persons are well formed, and
      every indexed slot points at a catalogued person. */
  ghost predicate Valid(s: Searcher) {
    && NgramIndex.Padded(s.cfg)
    && CatalogWellFormed(s.catalog)
    && IndexInCatalog(s.index, s.catalog)
  }

  /** The constructor: the four-argument index constructor, an empty store and an empty table. */
  function NewSearcher(n: Option<int>): (r: Result<Searcher>)
    ensures r.Failure? <==> n.GetOr(NgramIndex.DefaultN) < 1
    ensures r.Success? ==> Valid(r.value) && r.value.cfg.n == n.GetOr(NgramIndex.DefaultN)
    ensures r.Success? ==> r.value.store == {} && r.value.index == map[] && r.value.catalog == map[]
  {
    match NgramIndex.NewIndexWithComparers(n)
    case Failure(e) => Failure(e)
    case Success(cfg) => Success(Searcher(cfg, {}, map[], map[]))
  }

  // ---------------------------------------------------------------------------------------------
  // Ingestion

  /** A prepared word is at least N-1 characters long, so it has windows. */
  lemma PreparedIsLong(cfg: NgramIndex.Config, w: string)
    requires NgramIndex.Padded(cfg)
    ensures cfg.n - 1 <= |NgramIndex.PrepareWord(cfg, w)|
  {
    NgramIndex.PreparedLength(cfg, w);
  }

  /** A prepared token is never blank: it starts with '[' or, for N = 1, with the token's first
      character upper-cased. */
  lemma PreparedNotBlank(cfg: NgramIndex.Config, t: string)
    requires NgramIndex.Padded(cfg) && WordStorage.IsToken(t, WordStorage.DefaultSeparators)
    ensures !IsBlank(NgramIndex.PrepareWord(cfg, t))
  {
    var p := NgramIndex.PrepareWord(cfg, t);
    NgramIndex.PreparedLength(cfg, t);
    if cfg.n >= 2 {
      assert p[0] == '[';
    } else {
      assert !IsBlank(t);
      UpperKeepsNonBlank(t);
      assert p == Upper(t);
    }
  }

  /** The prepare function of `Add` and `Search`: the index's `PrepareWord`. */
  function Prepare(cfg: NgramIndex.Config): string -> string {
    w => NgramIndex.PrepareWord(cfg, w)
  }

  /** The prepared tokens of `fullName`, in order. */
  function PreparedTokens(cfg: NgramIndex.Config, fullName: string): (r: seq<string>)
    ensures |r| == |WordStorage.Tokens(fullName, WordStorage.DefaultSeparators)|
  {
    var tokens := WordStorage.Tokens(fullName, WordStorage.DefaultSeparators);
    seq(|tokens|, i requires 0 <= i < |tokens| => NgramIndex.PrepareWord(cfg, tokens[i]))
  }

  lemma PreparedTokensLong(cfg: NgramIndex.Config, fullName: string)
    requires NgramIndex.Padded(cfg)
    ensures forall i :: 0 <= i < |PreparedTokens(cfg, fullName)| ==> cfg.n - 1 <= |PreparedTokens(cfg, fullName)[i]|
  {
    var tokens := WordStorage.Tokens(fullName, WordStorage.DefaultSeparators);
    forall i | 0 <= i < |tokens|
      ensures cfg.n - 1 <= |PreparedTokens(cfg, fullName)[i]|
    {
      PreparedIsLong(cfg, tokens[i]);
    }
  }

  /** The success branch of `Add` for a name with tokens: the person with one slot per prepared
      token, its slots indexed, its words interned, and the person catalogued under its id. */
  function Ingest(s: Searcher, id: int, fullName: string, birthday: Option<Date>): Searcher
    requires Valid(s)
  {
    var words := PreparedTokens(s.cfg, fullName);
    var names := NewSlots(id, words);
    var person := PersonModel(id, names, fullName, birthday);
    PreparedTokensLong(s.cfg, fullName);
    Searcher(s.cfg, WordStorage.InternAll(s.store, words), IndexSlots(s.index, s.cfg.n, names, person),
             s.catalog[id := person])
  }

  /** What a successful `Add` of a name with tokens does: the person holds one slot per token, slot
      `i` holding the `i`-th prepared token; every slot is indexed under every window of its word with
      the person as value; the store gains the prepared tokens; the catalog gains (or replaces) the
      person and nothing else; entries of other slots stay. */
  ghost predicate Ingests(s: Searcher, s': Searcher, id: int, fullName: string, birthday: Option<Date>) {
    var words := PreparedTokens(s.cfg, fullName);
    && id in s'.catalog
    && var p := s'.catalog[id];
    && p == PersonModel(id, p.names, fullName, birthday)
    && |p.names| == |words|
    && (forall i :: 0 <= i < |words| ==> p.names[i] == NewNameSlot(id, i, words[i]))
    && Indexed(s'.index, s.cfg.n, p.names, p)
    && s'.store == s.store + (set i | 0 <= i < |words| :: words[i])
    && s'.catalog == s.catalog[id := p]
    && Keeps(s.index, s'.index, p.names)
  }

  /** Ingesting keeps the invariant. */
  lemma IngestValid(s: Searcher, id: int, fullName: string, birthday: Option<Date>)
    requires Valid(s)
    ensures Valid(Ingest(s, id, fullName, birthday))
  {
    var words := PreparedTokens(s.cfg, fullName);
    var names := NewSlots(id, words);
    var person := PersonModel(id, names, fullName, birthday);
    PreparedTokensLong(s.cfg, fullName);
    assert Ingested(person, id);
    WellFormedAfter(s.catalog, person);
    IndexSlotsAddsOnly(s.index, s.cfg.n, names, person);
    InCatalogAfter(s.index, IndexSlots(s.index, s.cfg.n, names, person), s.catalog, person);
  }

  /** Ingesting does what `Ingests` describes. */
  lemma IngestIngests(s: Searcher, id: int, fullName: string, birthday: Option<Date>)
    requires Valid(s)
    ensures Ingests(s, Ingest(s, id, fullName, birthday), id, fullName, birthday)
  {
    var words := PreparedTokens(s.cfg, fullName);
    var names := NewSlots(id, words);
    var person := PersonModel(id, names, fullName, birthday);
    PreparedTokensLong(s.cfg, fullName);
    IndexSlotsIndexed(s.index, s.cfg.n, names, person);
    IndexSlotsKept(s.index, s.cfg.n, names, person);
  }

  /** `Add(id, fullName, birthday)`: more than 255 tokens throw `ArithmeticException` before anything
      changes; no tokens change nothing. */
  function Add(s: Searcher, id: int, fullName: string, birthday: Option<Date>): (r: Result<Searcher>)
    requires Valid(s)
    ensures r.Failure? <==> |WordStorage.Tokens(fullName, WordStorage.DefaultSeparators)| > WordStorage.MaxWords
    ensures r.Failure? ==> r.error == Arithmetic
    ensures r.Success? ==> Valid(r.value) && r.value.cfg == s.cfg
    ensures r.Success? && WordStorage.Tokens(fullName, WordStorage.DefaultSeparators) == [] ==> r.value == s
    ensures r.Success? && WordStorage.Tokens(fullName, WordStorage.DefaultSeparators) != [] ==>
              Ingests(s, r.value, id, fullName, birthday)
  {
    match WordStorage.ParseWords(fullName, Prepare(s.cfg), WordStorage.DefaultSeparators)
    case Failure(e) => Failure(e)
    case Success(words) =>
      if words == [] then Success(s)
      else
        IngestValid(s, id, fullName, birthday);
        IngestIngests(s, id, fullName, birthday);
        Success(Ingest(s, id, fullName, birthday))
  }

  /** `Clear`: the store and the table are emptied, and with them every person. */
  function Clear(s: Searcher): (r: Searcher)
    ensures Valid(r) && r.cfg == s.cfg
    ensures forall w :: WordStorage.TryGet(r.store, w).None?
    ensures forall g :: NgramIndex.Bucket(r.index, g) == map[]
    ensures r.catalog == map[]
    requires Valid(s)
  {
    Searcher(s.cfg, WordStorage.Clear(s.store), NgramIndex.Clear(s.index), map[])
  }

  // ---------------------------------------------------------------------------------------------
  // One input word

  /** The filter of `SearchPersonsByWord`: the birthday or year of birth, when given, and at least as
      many names as input words. With no birthday asked for, the year is compared with the person's
      birth year; `Nullable.Equals` on the birthdays also lets through a person without a birthday. */
  predicate Passes(opts: SearchOptions, inputWordsCount: nat, p: PersonModel) {
    && (|| (opts.birthday.None? && (opts.yearOfBirth.None? ||
                                    (p.birthday.Some? && opts.yearOfBirth.value == p.birthday.value.year)))
        || opts.birthday == p.birthday)
    && |p.names| >= inputWordsCount
  }

  /** A person with no recorded birthday passes a filter by year of birth alone. */
  lemma NoBirthdayPassesYearFilter(opts: SearchOptions, inputWordsCount: nat, p: PersonModel)
    requires opts.birthday.None? && opts.yearOfBirth.Some? && p.birthday.None?
    requires |p.names| >= inputWordsCount
    ensures Passes(opts, inputWordsCount, p)
  {
  }

  /** A person born in another year does not, and neither does a person with too few names. */
  lemma YearFilterRejects(opts: SearchOptions, inputWordsCount: nat, p: PersonModel)
    requires opts.birthday.None? && opts.yearOfBirth.Some?
    requires (p.birthday.Some? && p.birthday.value.year != opts.yearOfBirth.value) || |p.names| < inputWordsCount
    ensures !Passes(opts, inputWordsCount, p)
  {
  }

  /** The filter as the index calls it. */
  function Admits(opts: SearchOptions, inputWordsCount: nat): (NameSlot, PersonModel) -> bool {
    (slot: NameSlot, p: PersonModel) => Passes(opts, inputWordsCount, p)
  }

  /** The key's n-gram count in the Dice denominator: `GetLength() - (n - 1)`, the length of the
      slot's word taken as `GetLength()`. */
  function KeyNgrams(cfg: NgramIndex.Config): NameSlot -> int {
    (slot: NameSlot) => |slot.name| - (cfg.n - 1)
  }

  /** `GroupNamesToPersons`: the hits under their owner's id, each valued with the input word's index
      and the hit's coefficient. */
  function Group(hits: map<NameSlot, NgramIndex.Match>, word: WordStorage.WordModel): (r: PersonMatches)
    ensures r == map[] <==> hits == map[]
  {
    var ids := set slot | slot in hits :: slot.personId;
    var r := map id | id in ids ::
      NamesResult(map slot | slot in hits && slot.personId == id :: NameValue(word.index, hits[slot].coefficient));
    assert r != map[] <==> hits != map[] by {
      if hits != map[] {
        var slot :| slot in hits;
        assert slot.personId in r;
      }
    }
    r
  }

  /** Every hit is kept under its owner's id, with the input word's index and the hit's coefficient,
      and nothing else is: no person without a hit, no empty group. */
  lemma GroupContents(hits: map<NameSlot, NgramIndex.Match>, word: WordStorage.WordModel)
    ensures var r := Group(hits, word);
            forall id :: id in r <==> exists slot :: slot in hits && slot.personId == id
    ensures var r := Group(hits, word);
            forall slot :: slot in hits ==> slot.personId in r && slot in r[slot.personId].names
    ensures var r := Group(hits, word);
            forall id, slot :: id in r && slot in r[id].names ==>
              slot in hits && slot.personId == id && r[id].names[slot] == NameValue(word.index, hits[slot].coefficient)
    ensures var r := Group(hits, word);
            forall id :: id in r ==> r[id].names != map[]
  {
    var r := Group(hits, word);
    forall id | id in r
      ensures r[id].names != map[]
    {
      var slot :| slot in hits && slot.personId == id;
      assert slot in r[id].names;
    }
  }

  /** The result of `SearchPersonsByWord`. */
  datatype WordMatch = WordMatch(proceed: bool, persons: PersonMatches)

  /** Slot `slot` is a hit of the prepared input word: some window of the word finds it through the
      filter and, when the threshold is below 1, its Dice coefficient reaches the threshold. */
  ghost predicate Found(s: Searcher, word: string, opts: SearchOptions, inputWordsCount: nat, slot: NameSlot)
    requires 0 <= s.cfg.n && s.cfg.n - 1 <= |word|
  {
    var windows := NgramIndex.Windows(word, s.cfg.n);
    var hits := NgramIndex.Hits(s.index, windows, slot, Admits(opts, inputWordsCount));
    && hits > 0
    && (opts.minCoefficient >= 1.0 ||
        NgramIndex.Coefficient(hits, |windows|, KeyNgrams(s.cfg)(slot)) >= opts.minCoefficient)
  }

  /** The coefficient of a hit. */
  ghost function FoundCoefficient(s: Searcher, word: string, opts: SearchOptions, inputWordsCount: nat,
                                  slot: NameSlot): real
    requires 0 <= s.cfg.n && s.cfg.n - 1 <= |word|
  {
    var windows := NgramIndex.Windows(word, s.cfg.n);
    NgramIndex.Coefficient(NgramIndex.Hits(s.index, windows, slot, Admits(opts, inputWordsCount)), |windows|,
                           KeyNgrams(s.cfg)(slot))
  }

  /** The persons map of one word: a slot is under its owner's id iff the word finds it, valued with
      the word's index and the slot's coefficient, and no person's group is empty. */
  ghost predicate WordPersons(s: Searcher, word: WordStorage.WordModel, opts: SearchOptions, inputWordsCount: nat,
                              persons: PersonMatches)
    requires 0 <= s.cfg.n && s.cfg.n - 1 <= |word.value|
  {
    && (forall slot: NameSlot ::
          (slot.personId in persons && slot in persons[slot.personId].names) <==>
          Found(s, word.value, opts, inputWordsCount, slot))
    && (forall id, slot :: id in persons && slot in persons[id].names ==>
          && slot.personId == id
          && persons[id].names[slot] == NameValue(word.index, FoundCoefficient(s, word.value, opts, inputWordsCount, slot)))
    && (forall id :: id in persons ==> persons[id].names != map[])
  }

  /** Grouping the index's matches by owner gives the persons map of the word. */
  lemma GroupIsWordPersons(s: Searcher, word: WordStorage.WordModel, opts: SearchOptions, inputWordsCount: nat,
                           hits: map<NameSlot, NgramIndex.Match>)
    requires 0 <= s.cfg.n && s.cfg.n - 1 <= |word.value|
    requires forall slot :: NgramIndex.MatchesKey(hits, s.index, NgramIndex.Windows(word.value, s.cfg.n), slot,
                                                 opts.minCoefficient, KeyNgrams(s.cfg), Admits(opts, inputWordsCount))
    ensures WordPersons(s, word, opts, inputWordsCount, Group(hits, word))
  {
    var windows := NgramIndex.Windows(word.value, s.cfg.n);
    var persons := Group(hits, word);
    GroupContents(hits, word);
    forall slot: NameSlot
      ensures (slot.personId in persons && slot in persons[slot.personId].names) <==>
              Found(s, word.value, opts, inputWordsCount, slot)
    {
      assert NgramIndex.MatchesKey(hits, s.index, windows, slot, opts.minCoefficient, KeyNgrams(s.cfg),
                                   Admits(opts, inputWordsCount));
    }
    forall id, slot | id in persons && slot in persons[id].names
      ensures slot.personId == id
      ensures persons[id].names[slot] == NameValue(word.index, FoundCoefficient(s, word.value, opts, inputWordsCount, slot))
    {
      assert NgramIndex.MatchesKey(hits, s.index, windows, slot, opts.minCoefficient, KeyNgrams(s.cfg),
                                   Admits(opts, inputWordsCount));
    }
  }

  /** `SearchPersonsByWord`: a blank word throws `ArgumentException`; otherwise the search goes on iff
      the word found someone. What it found is `SearchPersonsByWordFinds`. */
  function SearchPersonsByWord(s: Searcher, word: WordStorage.WordModel, inputWordsCount: nat,
                               opts: SearchOptions): (r: Result<WordMatch>)
    ensures r.Failure? <==> IsBlank(word.value) || s.cfg.n < 0 || |word.value| < s.cfg.n - 1
    ensures r.Success? ==> (r.value.proceed <==> r.value.persons != map[])
  {
    match NgramIndex.GetMatches(s.index, s.cfg.n, word.value, opts.minCoefficient, KeyNgrams(s.cfg),
                                Admits(opts, inputWordsCount))
    case Failure(e) => Failure(e)
    case Success(hits) =>
      var persons := Group(hits, word);
      Success(WordMatch(persons != map[], persons))
  }

  /** The persons map of `SearchPersonsByWord` holds exactly the slots the word finds, under their
      owner's id, valued with the input word's index and the slot's coefficient. */
  lemma SearchPersonsByWordFinds(s: Searcher, word: WordStorage.WordModel, inputWordsCount: nat, opts: SearchOptions)
    requires 0 <= s.cfg.n && s.cfg.n - 1 <= |word.value|
    ensures var r := SearchPersonsByWord(s, word, inputWordsCount, opts);
            r.Success? ==> WordPersons(s, word, opts, inputWordsCount, r.value.persons)
  {
    var g := NgramIndex.GetMatches(s.index, s.cfg.n, word.value, opts.minCoefficient, KeyNgrams(s.cfg),
                                   Admits(opts, inputWordsCount));
    if g.Success? {
      GroupIsWordPersons(s, word, opts, inputWordsCount, g.value);
    }
  }

  // ---------------------------------------------------------------------------------------------
  // Intersecting the per-word results

  /** `pos` is the first position of a smallest person map. */
  ghost predicate FirstSmallest(ms: seq<PersonMatches>, pos: int) {
    && 0 <= pos < |ms|
    && (forall j :: 0 <= j < |ms| ==> |ms[pos]| <= |ms[j]|)
    && (forall j :: 0 <= j < pos ==> |ms[pos]| < |ms[j]|)
  }

  /** Only one position is the first smallest. */
  lemma FirstSmallestUnique(ms: seq<PersonMatches>, p: int, q: int)
    requires FirstSmallest(ms, p) && FirstSmallest(ms, q)
    ensures p == q
  {
    var a, c := |ms[p]|, |ms[q]|;
  }

  lemma {:induction false} FirstSmallestExists(ms: seq<PersonMatches>)
    requires ms != []
    ensures exists pos :: FirstSmallest(ms, pos)
    decreases |ms|
  {
    if |ms| > 1 {
      var init := ms[..|ms| - 1];
      FirstSmallestExists(init);
      var p :| FirstSmallest(init, p);
      if |ms[|ms| - 1]| < |ms[p]| {
        assert FirstSmallest(ms, |ms| - 1);
      } else {
        assert FirstSmallest(ms, p);
      }
    } else {
      assert FirstSmallest(ms, 0);
    }
  }

  /** The first position of a smallest person map. */
  ghost function SmallestIndex(ms: seq<PersonMatches>): (pos: nat)
    requires ms != []
    ensures FirstSmallest(ms, pos)
  {
    FirstSmallestExists(ms);
    var pos :| FirstSmallest(ms, pos);
    pos
  }

  /** `ms` with positions `i` and `j` exchanged. */
  function Swap<T>(ms: seq<T>, i: nat, j: nat): (r: seq<T>)
    requires i < |ms| && j < |ms|
    ensures |r| == |ms| && r[i] == ms[j] && r[j] == ms[i]
    ensures forall k :: 0 <= k < |ms| && k != i && k != j ==> r[k] == ms[k]
    ensures multiset(r) == multiset(ms)
  {
    ms[i := ms[j]][j := ms[i]]
  }

  /** `MoveSmallestResultFirst`: the first smallest person map changes places with the first one; the
      maps are the same, the first is now a smallest one. */
  method MoveSmallestResultFirst(ms: seq<PersonMatches>) returns (r: seq<PersonMatches>)
    ensures ms == [] ==> r == []
    ensures ms != [] ==> r == Swap(ms, 0, SmallestIndex(ms))
    ensures ms != [] ==> forall j :: 0 <= j < |r| ==> |r[0]| <= |r[j]|
  {
    if ms == [] {
      return ms;
    }
    var pos := 0;
    var i := 1;
    while i < |ms|
      invariant 1 <= i <= |ms|
      invariant FirstSmallest(ms[..i], pos)
    {
      if |ms[i]| < |ms[pos]| {
        pos := i;
      }
      i := i + 1;
    }
    assert ms[..|ms|] == ms;
    FirstSmallestUnique(ms, pos, SmallestIndex(ms));
    r := ms;
    if pos > 0 {
      r := ms[0 := ms[pos]][pos := ms[0]];
    }
  }

  /** `PersonExistsInAllMatches`: the person is in every map after the first (the first is the one the
      caller enumerates). */
  method PersonExistsInAllMatches(id: int, ms: seq<PersonMatches>) returns (b: bool)
    ensures b <==> forall k :: 1 <= k < |ms| ==> id in ms[k]
  {
    b := true;
    var index := 1;
    while index < |ms|
      invariant 1 <= index || |ms| == 0
      invariant b <==> forall k :: 1 <= k < index && k < |ms| ==> id in ms[k]
      invariant !b ==> index < |ms|
      decreases |ms| - index
    {
      if id !in ms[index] {
        b := false;
        break;
      }
      index := index + 1;
    }
  }

  /** A person of the catalog that every input word matched, with at least as many names as input words. */
  ghost predicate Survivor(inputWordsCount: nat, ms: seq<PersonMatches>, catalog: map<int, PersonModel>, id: int) {
    && id in catalog
    && |catalog[id].names| >= inputWordsCount
    && forall k :: 0 <= k < |ms| ==> id in ms[k]
  }

  /** `CreateNamesSearchResult` throws for this person: a slot matched twice under one input word
      index, or the matrix of a best-match resolution cannot be built. */
  ghost predicate ResolutionFails(ms: seq<PersonMatches>, catalog: map<int, PersonModel>, id: int)
    requires id in catalog && forall k :: 0 <= k < |ms| ==> id in ms[k]
  {
    var rs := HitsOf(ms, id);
    var names := catalog[id].names;
    || AnyClash(rs, names)
    || (NeedsAssignment(rs, names) && ArrayOfDictionariesToMatrix(SlotMaps(rs, names)).Failure?)
  }

  /** One entry of the result of `IntersectMany`: the person and its names dictionary. */
  datatype PersonResult = PersonResult(person: PersonModel, names: NamesResult)

  /** What an entry of the intersection holds: a surviving person, taken from the catalog, its slots
      resolved against the maps in the order they were scanned, and at least one slot kept. */
  ghost predicate Entry(inputWordsCount: nat, ms: seq<PersonMatches>, catalog: map<int, PersonModel>, avg: bool,
                        id: int, e: PersonResult) {
    && Survivor(inputWordsCount, ms, catalog, id)
    && e.person == catalog[id]
    && ResolvedFor(HitsOf(ms, id), e.person.names, avg, e.names.names)
    && e.names.names != map[]
  }

  /** The body of the loop of `IntersectMany` for one person of the first map: skipped when it has too
      few names or another map lacks it; otherwise resolved, and kept when some slot has an entry. */
  method ResolvePerson(inputWordsCount: nat, ms: seq<PersonMatches>, catalog: map<int, PersonModel>,
                       opts: SearchOptions, id: int)
    returns (r: Result<Option<PersonResult>>)
    requires ms != [] && id in ms[0] && id in catalog && catalog[id].id == id && SlotsNumbered(catalog[id])
    ensures r.Failure? <==> Survivor(inputWordsCount, ms, catalog, id) && ResolutionFails(ms, catalog, id)
    ensures r.Success? && r.value.Some? ==> Entry(inputWordsCount, ms, catalog, opts.averageByInputCount, id, r.value.value)
    ensures r.Success? && r.value.None? && Survivor(inputWordsCount, ms, catalog, id) ==>
              !SomeSlotKept(catalog[id].names, HitsOf(ms, id), opts.averageByInputCount)
  {
    var person := catalog[id];
    if |person.names| < inputWordsCount {
      return Success(None);
    }
    var inAll := PersonExistsInAllMatches(id, ms);
    if !inAll {
      return Success(None);
    }
    var names := CreateNamesSearchResult(person, ms, opts);
    if names.Failure? {
      return Failure(names.error);
    }
    ResolvedEmpty(HitsOf(ms, id), person.names, opts.averageByInputCount, names.value.names);
    if names.value.names == map[] {
      return Success(None);
    }
    return Success(Some(PersonResult(person, names.value)));
  }

  /** The intersection so far: `acc` holds entries of persons already visited only, and every visited
      survivor with a slot kept. */
  ghost predicate Intersected(inputWordsCount: nat, ms: seq<PersonMatches>, catalog: map<int, PersonModel>, avg: bool,
                              visited: set<int>, acc: map<int, PersonResult>)
  {
    && acc.Keys <= visited
    && (forall id :: id in acc ==> Entry(inputWordsCount, ms, catalog, avg, id, acc[id]))
    && (forall id :: (id in visited && Survivor(inputWordsCount, ms, catalog, id) &&
                      SomeSlotKept(catalog[id].names, HitsOf(ms, id), avg)) ==> id in acc)
  }

  /** The catalog knows every person the maps hold, each with numbered slots. */
  ghost predicate Catalogued(ms: seq<PersonMatches>, catalog: map<int, PersonModel>) {
    forall k, id :: 0 <= k < |ms| && id in ms[k] ==> id in catalog && catalog[id].id == id && SlotsNumbered(catalog[id])
  }

  /** A swap keeps which persons the maps hold. */
  lemma SwapKeepsPersons(ms: seq<PersonMatches>, pos: nat, id: int)
    requires pos < |ms|
    ensures (forall k :: 0 <= k < |ms| ==> id in ms[k]) <==> (forall k :: 0 <= k < |ms| ==> id in Swap(ms, 0, pos)[k])
  {
    var moved := Swap(ms, 0, pos);
    if forall k :: 0 <= k < |moved| ==> id in moved[k] {
      forall k | 0 <= k < |ms| ensures id in ms[k] {
        if k == 0 { assert ms[0] == moved[pos]; }
        else if k == pos { assert ms[pos] == moved[0]; }
        else { assert ms[k] == moved[k]; }
      }
    }
  }

  /** The outcome of `IntersectMany` over the reordered maps: the entries exactly as `Intersected`
      describes once every person of the first map is visited. */
  ghost predicate IntersectionOf(inputWordsCount: nat, ms: seq<PersonMatches>, catalog: map<int, PersonModel>,
                                 avg: bool, r: map<int, PersonResult>)
  {
    && (forall id :: id in r ==> Entry(inputWordsCount, ms, catalog, avg, id, r[id]))
    && (forall id :: Survivor(inputWordsCount, ms, catalog, id) && SomeSlotKept(catalog[id].names, HitsOf(ms, id), avg) ==>
          id in r)
  }

  /** `IntersectMany`: no maps give no persons; otherwise, with the smallest map moved first, the
      persons of every map with enough names, resolved, those keeping a slot. A throwing resolution
      surfaces as the result's error. */
  method IntersectMany(inputWordsCount: nat, opts: SearchOptions, ms: seq<PersonMatches>, catalog: map<int, PersonModel>)
    returns (r: Result<map<int, PersonResult>>)
    requires Catalogued(ms, catalog)
    ensures ms == [] ==> r == Success(map[])
    ensures ms != [] && r.Success? ==>
              IntersectionOf(inputWordsCount, Swap(ms, 0, SmallestIndex(ms)), catalog, opts.averageByInputCount, r.value)
    ensures ms != [] && r.Failure? ==>
              var moved := Swap(ms, 0, SmallestIndex(ms));
              exists id :: Survivor(inputWordsCount, moved, catalog, id) && ResolutionFails(moved, catalog, id)
    ensures ms != [] && r.Success? ==>
              var moved := Swap(ms, 0, SmallestIndex(ms));
              forall id :: Survivor(inputWordsCount, moved, catalog, id) ==> !ResolutionFails(moved, catalog, id)
  {
    if ms == [] {
      return Success(map[]);
    }
    var moved := MoveSmallestResultFirst(ms);
    var avg := opts.averageByInputCount;
    var first := moved[0];
    var todo := first.Keys;
    var acc: map<int, PersonResult> := map[];
    while todo != {}
      invariant todo <= first.Keys
      invariant Intersected(inputWordsCount, moved, catalog, avg, first.Keys - todo, acc)
      invariant forall id :: id in first.Keys - todo && Survivor(inputWordsCount, moved, catalog, id) ==>
                  !ResolutionFails(moved, catalog, id)
      decreases |todo|
    {
      PickKey(todo);
      var id :| id in todo;
      var e := ResolvePerson(inputWordsCount, moved, catalog, opts, id);
      if e.Failure? {
        return Failure(e.error);
      }
      if e.value.Some? {
        acc := acc[id := e.value.value];
      }
      todo := todo - {id};
    }
    r := Success(acc);
  }

  // ---------------------------------------------------------------------------------------------
  // Averaging, filtering and ordering

  /** The coefficient of a names dictionary entry. */
  function CoefficientOf(v: NameValue): real {
    v.coefficient
  }

  /** The average coefficient of a person's result: over the `inputWordsCount` largest coefficients
      when averaging by input count, over all of them otherwise. An empty average throws. */
  ghost function PersonAverage(e: PersonResult, byCount: bool, inputWordsCount: nat): Result<real> {
    var cs := Enumerate(e.names.names, CoefficientOf);
    if byCount then TopMean(cs, inputWordsCount) else Mean(cs)
  }

  /** Every person of `results` has an average. */
  ghost predicate AllAveraged(results: map<int, PersonResult>, byCount: bool, inputWordsCount: nat) {
    forall id :: id in results ==> PersonAverage(results[id], byCount, inputWordsCount).Success?
  }

  /** Every person of `results` paired with its average. */
  ghost function Averages(results: map<int, PersonResult>, byCount: bool, inputWordsCount: nat)
    : (r: map<int, Scored<PersonResult>>)
    requires AllAveraged(results, byCount, inputWordsCount)
    ensures r.Keys == results.Keys
  {
    map id | id in results :: Scored(results[id], PersonAverage(results[id], byCount, inputWordsCount).value)
  }

  /** What `FilterAvgCoefficientAndOrderResults` returns: the persons whose average reaches the
      minimum, with their averages, each once, best average first. */
  ghost predicate Ranked(results: map<int, PersonResult>, opts: SearchOptions, inputWordsCount: nat,
                         out: seq<Scored<PersonResult>>) {
    && AllAveraged(results, opts.averageByInputCount, inputWordsCount)
    && SortedByAverage(out)
    && Selects(Averages(results, opts.averageByInputCount, inputWordsCount), results.Keys, opts.minAverageCoefficient, out)
  }

  /** The average of one person, over the coefficients in the order the dictionary enumerates them. */
  method AverageOf(e: PersonResult, byCount: bool, inputWordsCount: nat) returns (a: Result<real>)
    ensures a == PersonAverage(e, byCount, inputWordsCount)
  {
    var cs := Values(e.names.names, CoefficientOf);
    AveragesIgnoreOrder(cs, Enumerate(e.names.names, CoefficientOf), inputWordsCount);
    a := if byCount then TopMean(cs, inputWordsCount) else Mean(cs);
  }

  /** A map that pairs every person with its average under its own id is `Averages`. */
  lemma AveragesPerId(results: map<int, PersonResult>, byCount: bool, inputWordsCount: nat,
                      m: map<int, Scored<PersonResult>>)
    requires m.Keys == results.Keys
    requires forall id :: id in m ==>
               (PersonAverage(results[id], byCount, inputWordsCount).Success? &&
                m[id] == Scored(results[id], PersonAverage(results[id], byCount, inputWordsCount).value))
    ensures AllAveraged(results, byCount, inputWordsCount)
    ensures m == Averages(results, byCount, inputWordsCount)
  {
    var r := Averages(results, byCount, inputWordsCount);
    forall id | id in m
      ensures m[id] == r[id]
    {
    }
  }

  /** `FilterAvgCoefficientAndOrderResults`: each person's average (an empty average throws
      `InvalidOperationException`), the persons reaching the minimum average, best first, equal
      averages in enumeration order. */
  method FilterAvgCoefficientAndOrderResults(inputWordsCount: nat, results: map<int, PersonResult>, opts: SearchOptions)
    returns (r: Result<seq<Scored<PersonResult>>>)
    ensures r.Failure? <==>
              exists id :: id in results && PersonAverage(results[id], opts.averageByInputCount, inputWordsCount).Failure?
    ensures r.Failure? ==> r.error == InvalidOperation
    ensures r.Success? ==> Ranked(results, opts, inputWordsCount, r.value)
  {
    var byCount := opts.averageByInputCount;
    var todo := results.Keys;
    var scored: map<int, Scored<PersonResult>> := map[];
    while todo != {}
      invariant todo <= results.Keys
      invariant scored.Keys == results.Keys - todo
      invariant forall id :: id in scored ==>
                  (PersonAverage(results[id], byCount, inputWordsCount).Success? &&
                   scored[id] == Scored(results[id], PersonAverage(results[id], byCount, inputWordsCount).value))
      decreases |todo|
    {
      PickKey(todo);
      var id :| id in todo;
      var a := AverageOf(results[id], byCount, inputWordsCount);
      if a.Failure? {
        return Failure(a.error);
      }
      scored := scored[id := Scored(results[id], a.value)];
      todo := todo - {id};
    }
    AveragesPerId(results, byCount, inputWordsCount, scored);
    var out := SelectAndSort(scored, opts.minAverageCoefficient);
    r := Success(out);
  }

  // ---------------------------------------------------------------------------------------------
  // The search

  /** The persons map of one input word; a word the index rejected would count as matching nobody
      (a prepared word never is rejected, `PreparedWordAccepted`). */
  function PersonsOf(s: Searcher, word: WordStorage.WordModel, inputWordsCount: nat, opts: SearchOptions): PersonMatches {
    match SearchPersonsByWord(s, word, inputWordsCount, opts)
    case Success(m) => m.persons
    case Failure(_) => map[]
  }

  /** The input words of `Search`, when there are at most 255 of them. */
  function InputWords(s: Searcher, input: string): Result<seq<WordStorage.WordModel>> {
    WordStorage.ParseWords(input, Prepare(s.cfg), WordStorage.DefaultSeparators)
  }

  /** A word the n-gram index takes as a query: not blank and at least N-1 characters long. */
  predicate Accepted(cfg: NgramIndex.Config, w: WordStorage.WordModel) {
    !IsBlank(w.value) && 0 <= cfg.n && cfg.n - 1 <= |w.value|
  }

  /** A prepared input word is neither blank nor shorter than N-1, so the index accepts it. */
  lemma PreparedWordAccepted(s: Searcher, input: string, k: nat)
    requires Valid(s) && InputWords(s, input).Success? && k < |InputWords(s, input).value|
    ensures Accepted(s.cfg, InputWords(s, input).value[k])
  {
    var t := WordStorage.Tokens(input, WordStorage.DefaultSeparators)[k];
    PreparedNotBlank(s.cfg, t);
    PreparedIsLong(s.cfg, t);
  }

  lemma InputWordsAccepted(s: Searcher, input: string)
    requires Valid(s) && InputWords(s, input).Success?
    ensures forall k :: 0 <= k < |InputWords(s, input).value| ==> Accepted(s.cfg, InputWords(s, input).value[k])
  {
    forall k | 0 <= k < |InputWords(s, input).value|
      ensures Accepted(s.cfg, InputWords(s, input).value[k])
    {
      PreparedWordAccepted(s, input, k);
    }
  }

  /** A person a word finds is catalogued, under its own id, with numbered slots. */
  lemma FoundOneIsCatalogued(s: Searcher, word: WordStorage.WordModel, opts: SearchOptions, inputWordsCount: nat,
                             persons: PersonMatches, id: int)
    requires Valid(s) && 0 <= s.cfg.n && s.cfg.n - 1 <= |word.value|
    requires WordPersons(s, word, opts, inputWordsCount, persons) && id in persons
    ensures id in s.catalog && s.catalog[id].id == id && SlotsNumbered(s.catalog[id])
  {
    var slot :| slot in persons[id].names;
    assert Found(s, word.value, opts, inputWordsCount, slot);
    var windows := NgramIndex.Windows(word.value, s.cfg.n);
    var i :| 0 <= i < |windows| && windows[i] in s.index && slot in s.index[windows[i]];
    assert Ingested(s.catalog[id], id);
  }

  /** Every person a word finds is catalogued, under its own id, with numbered slots. */
  lemma FoundIsCatalogued(s: Searcher, word: WordStorage.WordModel, opts: SearchOptions, inputWordsCount: nat,
                          persons: PersonMatches)
    requires Valid(s) && 0 <= s.cfg.n && s.cfg.n - 1 <= |word.value|
    requires WordPersons(s, word, opts, inputWordsCount, persons)
    ensures forall id :: id in persons ==> id in s.catalog && s.catalog[id].id == id && SlotsNumbered(s.catalog[id])
  {
    forall id | id in persons
      ensures id in s.catalog && s.catalog[id].id == id && SlotsNumbered(s.catalog[id])
    {
      FoundOneIsCatalogued(s, word, opts, inputWordsCount, persons, id);
    }
  }

  /** Each input word's matches carry that word's index. */
  ghost predicate Tagged(ms: seq<PersonMatches>) {
    forall k, id, slot :: 0 <= k < |ms| && id in ms[k] && slot in ms[k][id].names ==>
      ms[k][id].names[slot].inputWordIndex == k
  }

  /** The position of `ms` that the swap of 0 and `pos` moves to position `k`. */
  function Origin(pos: nat, k: nat): nat {
    if k == 0 then pos else if k == pos then 0 else k
  }

  /** With every word's matches tagged with its index and no more words than the person has names, a
      survivor's resolution never throws: the hits of different words carry different indices, all
      below the number of slots. */
  lemma TaggedResolves(inputWordsCount: nat, ms: seq<PersonMatches>, catalog: map<int, PersonModel>, id: int)
    requires ms != [] && Tagged(ms) && |ms| <= inputWordsCount
    requires Survivor(inputWordsCount, Swap(ms, 0, SmallestIndex(ms)), catalog, id)
    ensures !ResolutionFails(Swap(ms, 0, SmallestIndex(ms)), catalog, id)
  {
    var pos := SmallestIndex(ms);
    var moved := Swap(ms, 0, pos);
    var rs: seq<SlotHits> := HitsOf(moved, id);
    var names := catalog[id].names;
    assert forall k :: 0 <= k < |moved| ==> moved[k] == ms[Origin(pos, k)];
    assert forall k, slot: NameSlot :: 0 <= k < |rs| && slot in rs[k] ==> rs[k][slot].inputWordIndex == Origin(pos, k);
    ApartWordsResolve(rs, names);
  }

  /** No entry of the intersection is empty, so with at least one input word every average exists. */
  lemma AveragesExist(results: map<int, PersonResult>, byCount: bool, inputWordsCount: nat)
    requires inputWordsCount >= 1
    requires forall id :: id in results ==> results[id].names.names != map[]
    ensures AllAveraged(results, byCount, inputWordsCount)
  {
    forall id | id in results
      ensures PersonAverage(results[id], byCount, inputWordsCount).Success?
    {
      EnumerateSize(results[id].names.names, CoefficientOf);
    }
  }

  /** What a search with results returns: the intersection of the words' person maps, smallest map
      first, averaged, filtered and ordered. */
  ghost predicate SearchOutcome(s: Searcher, ms: seq<PersonMatches>, opts: SearchOptions, inputWordsCount: nat,
                                out: seq<Scored<PersonResult>>)
    requires ms != []
  {
    exists results :: && IntersectionOf(inputWordsCount, Swap(ms, 0, SmallestIndex(ms)), s.catalog,
                                        opts.averageByInputCount, results)
                      && Ranked(results, opts, inputWordsCount, out)
  }

  /** The persons map of each of `words`, in order. */
  ghost function WordsFound(s: Searcher, words: seq<WordStorage.WordModel>, opts: SearchOptions): seq<PersonMatches> {
    seq(|words|, k requires 0 <= k < |words| => PersonsOf(s, words[k], |words|, opts))
  }

  /** The persons maps of the input words, when there are at most 255 of them. */
  ghost function SearchedWords(s: Searcher, input: string, opts: SearchOptions): seq<PersonMatches>
    requires InputWords(s, input).Success?
  {
    WordsFound(s, InputWords(s, input).value, opts)
  }

  /** `Search(input, searchOptions)`: more than 255 input words throw `ArithmeticException`. No input
      words, or an input word that finds nobody, give null; otherwise the ranked intersection. With
      persons compared by id, no other exception can escape: prepared words are valid queries, tagged
      matches always resolve and every kept person has a coefficient to average. An id added twice
      without `Clear` is the exception: the source then holds two person values for one id, and
      `GroupNamesToPersons` throws on the duplicate key; the model keeps one person per id. */
  method Search(s: Searcher, input: string, searchOptions: Option<SearchOptions>)
    returns (r: Result<Option<seq<Scored<PersonResult>>>>)
    requires Valid(s)
    ensures r.Failure? <==> |WordStorage.Tokens(input, WordStorage.DefaultSeparators)| > WordStorage.MaxWords
    ensures r.Failure? ==> r.error == Arithmetic
    ensures r.Success? ==>
              var ms := SearchedWords(s, input, searchOptions.GetOr(DefaultSearchOptions));
              (r.value.None? <==> ms == [] || exists k :: 0 <= k < |ms| && ms[k] == map[])
    ensures r.Success? && r.value.Some? ==>
              var ms := SearchedWords(s, input, searchOptions.GetOr(DefaultSearchOptions));
              ms != [] && SearchOutcome(s, ms, searchOptions.GetOr(DefaultSearchOptions), |ms|, r.value.value)
  {
    var opts := searchOptions.GetOr(DefaultSearchOptions);
    var parsed := InputWords(s, input);
    if parsed.Failure? {
      return Failure(parsed.error);
    }
    var words := parsed.value;
    if words == [] {
      return Success(None);
    }
    InputWordsAccepted(s, input);
    var ms := MatchInput(s, words, opts);
    if ms.None? {
      return Success(None);
    }
    WordsCatalogued(s, input, opts, ms.value);
    var results := IntersectWords(s, opts, ms.value);
    AveragesExist(results, opts.averageByInputCount, |words|);
    var ordered := FilterAvgCoefficientAndOrderResults(|words|, results, opts);
    return Success(Some(ordered.value));
  }

  /** The loop of `Search` over the input words, `find` being `SearchPersonsByWord` on each: stops at
      the first word that finds nobody, and otherwise holds what every word found, in input order. */
  method MatchWords(words: seq<WordStorage.WordModel>, find: WordStorage.WordModel -> PersonMatches)
    returns (r: Option<seq<PersonMatches>>)
    ensures r.None? <==> exists k :: 0 <= k < |words| && find(words[k]) == map[]
    ensures r.Some? ==> |r.value| == |words| && forall k :: 0 <= k < |words| ==> r.value[k] == find(words[k])
  {
    var ms: seq<PersonMatches> := [];
    var k := 0;
    while k < |words|
      invariant 0 <= k <= |words| && |ms| == k
      invariant forall j :: 0 <= j < k ==> ms[j] == find(words[j]) && ms[j] != map[]
    {
      var m := find(words[k]);
      if m == map[] {
        return None;
      }
      ms := ms + [m];
      k := k + 1;
    }
    return Some(ms);
  }

  /** The loop of `Search` on the words of `input`. */
  method MatchInput(s: Searcher, words: seq<WordStorage.WordModel>, opts: SearchOptions) returns (r: Option<seq<PersonMatches>>)
    ensures var ms := WordsFound(s, words, opts);
            r.None? <==> exists k :: 0 <= k < |ms| && ms[k] == map[]
    ensures r.Some? ==> r.value == WordsFound(s, words, opts)
  {
    var find := w => PersonsOf(s, w, |words|, opts);
    r := MatchWords(words, find);
    ghost var ms := WordsFound(s, words, opts);
    assert forall k :: 0 <= k < |words| ==> ms[k] == find(words[k]);
  }

  /** `IntersectMany` over the searched words, which cannot throw. */
  method IntersectWords(s: Searcher, opts: SearchOptions, ms: seq<PersonMatches>) returns (r: map<int, PersonResult>)
    requires ms != [] && Catalogued(ms, s.catalog) && Tagged(ms)
    ensures IntersectionOf(|ms|, Swap(ms, 0, SmallestIndex(ms)), s.catalog, opts.averageByInputCount, r)
    ensures forall id :: id in r ==> r[id].names.names != map[]
  {
    forall id | Survivor(|ms|, Swap(ms, 0, SmallestIndex(ms)), s.catalog, id)
      ensures !ResolutionFails(Swap(ms, 0, SmallestIndex(ms)), s.catalog, id)
    {
      TaggedResolves(|ms|, ms, s.catalog, id);
    }
    var res := IntersectMany(|ms|, opts, ms, s.catalog);
    r := res.value;
  }

  /** Every word's persons are catalogued and carry the word's index. */
  lemma WordsCatalogued(s: Searcher, input: string, opts: SearchOptions, ms: seq<PersonMatches>)
    requires Valid(s) && InputWords(s, input).Success?
    requires ms == SearchedWords(s, input, opts)
    ensures Catalogued(ms, s.catalog) && Tagged(ms)
  {
    var words := InputWords(s, input).value;
    forall k | 0 <= k < |ms|
      ensures forall id :: id in ms[k] ==> id in s.catalog && s.catalog[id].id == id && SlotsNumbered(s.catalog[id])
      ensures forall id, slot :: id in ms[k] && slot in ms[k][id].names ==> ms[k][id].names[slot].inputWordIndex == k
    {
      PreparedWordAccepted(s, input, k);
      SearchPersonsByWordFinds(s, words[k], |words|, opts);
      FoundIsCatalogued(s, words[k], opts, |words|, ms[k]);
    }
  }

  // ---------------------------------------------------------------------------------------------
  // Adding and clearing, seen by a search

  /** After `Clear`, no word finds anyone, so every search with input words gives null. */
  lemma ClearedFindsNobody(s: Searcher, word: WordStorage.WordModel, inputWordsCount: nat, opts: SearchOptions)
    requires Valid(s)
    ensures PersonsOf(Clear(s), word, inputWordsCount, opts) == map[]
  {
    var c := Clear(s);
    var m := SearchPersonsByWord(c, word, inputWordsCount, opts);
    if m.Success? {
      SearchPersonsByWordFinds(c, word, inputWordsCount, opts);
      assert forall slot: NameSlot :: !Found(c, word.value, opts, inputWordsCount, slot);
    }
  }

  /** After a successful `Add` of a name with tokens, each prepared word of the name, searched by
      itself, finds its slot with coefficient 1 whenever the filter lets the person through. */
  lemma AddedWordIsFound(s: Searcher, s': Searcher, id: int, fullName: string, birthday: Option<Date>, i: nat,
                         inputWordsCount: nat, opts: SearchOptions)
    requires Valid(s) && Ingests(s, s', id, fullName, birthday)
    requires i < |WordStorage.Tokens(fullName, WordStorage.DefaultSeparators)|
    requires Passes(opts, inputWordsCount, s'.catalog[id]) && s'.cfg == s.cfg
    ensures var p := s'.catalog[id];
            var word := PreparedTokens(s.cfg, fullName)[i];
            && Found(s', word, opts, inputWordsCount, p.names[i])
            && FoundCoefficient(s', word, opts, inputWordsCount, p.names[i]) == 1.0
  {
    var p := s'.catalog[id];
    var t := WordStorage.Tokens(fullName, WordStorage.DefaultSeparators)[i];
    var word := PreparedTokens(s.cfg, fullName)[i];
    var n := s.cfg.n;
    NgramIndex.PreparedLength(s.cfg, t);
    assert p.names[i].name == word;
    var windows := NgramIndex.Windows(word, n);
    WindowsIndexed(s', p, i, windows, Admits(opts, inputWordsCount));
    NgramIndex.HitsAll(s'.index, windows, p.names[i], Admits(opts, inputWordsCount));
    NgramIndex.SelfCoefficient(|windows|);
  }

  lemma WindowsIndexed(s': Searcher, p: PersonModel, i: nat, windows: seq<string>, filter: (NameSlot, PersonModel) -> bool)
    requires i < |p.names| && 0 <= s'.cfg.n && s'.cfg.n - 1 <= |p.names[i].name|
    requires windows == NgramIndex.Windows(p.names[i].name, s'.cfg.n)
    requires Indexed(s'.index, s'.cfg.n, p.names, p) && filter(p.names[i], p)
    ensures NgramIndex.AllWindowsHit(s'.index, windows, p.names[i], filter)
  {
    forall j | 0 <= j < |windows|
      ensures windows[j] in s'.index && p.names[i] in s'.index[windows[j]] && filter(p.names[i], s'.index[windows[j]][p.names[i]])
    {
      assert windows[j] in NgramIndex.Windows(p.names[i].name, s'.cfg.n);
    }
  }
}
