/** Indexing the slots of a person, shared by both lineages: each slot's word goes into the n-gram
    index with the person as value, and the persons are kept in a catalog by id. */
module SlotIndex {
  import NgramIndex
  import opened Domain

  /** A person as `Add` builds it: slot `i` belongs to the person and has word index `i`. */
  predicate Ingested(p: PersonModel, id: int) {
    && p.id == id
    && forall i :: 0 <= i < |p.names| ==> p.names[i] == NewNameSlot(id, i, p.names[i].name)
  }

  /** Every catalogued person is well formed. */
  ghost predicate CatalogWellFormed(c: map<int, PersonModel>) {
    forall id :: id in c ==> Ingested(c[id], id)
  }

  /** Every indexed slot points at a catalogued person through a value with that person's id. */
  ghost predicate IndexInCatalog(b: NgramIndex.Buckets<NameSlot, PersonModel>, c: map<int, PersonModel>) {
    forall g, slot :: g in b && slot in b[g] ==> slot.personId in c && b[g][slot].id == slot.personId
  }

  /** One `_index.Add(word, slot, person)`: the slot under every window of its word, nothing else
      changed. */
  function AddSlot(b: NgramIndex.Buckets<NameSlot, PersonModel>, n: int, slot: NameSlot, person: PersonModel)
    : (r: NgramIndex.Buckets<NameSlot, PersonModel>)
    requires 1 <= n && n - 1 <= |slot.name|
    ensures Indexed(r, n, [slot], person)
    ensures Keeps(b, r, [slot])
    ensures Only(b, r, [slot], person)
  {
    NgramIndex.Add(b, n, slot.name, slot, person).value
  }

  /** Indexes each slot under the windows of its word, with `person` as value (the loop of `Add`). */
  function IndexSlots(b: NgramIndex.Buckets<NameSlot, PersonModel>, n: int, names: seq<NameSlot>,
                      person: PersonModel): NgramIndex.Buckets<NameSlot, PersonModel>
    requires 1 <= n
    requires forall i :: 0 <= i < |names| ==> n - 1 <= |names[i].name|
    decreases |names|
  {
    if names == [] then b
    else IndexSlots(AddSlot(b, n, names[0], person), n, names[1..], person)
  }

  /** Every slot is under every window of its word, valued `person`. */
  ghost predicate Indexed(r: NgramIndex.Buckets<NameSlot, PersonModel>, n: int, names: seq<NameSlot>, person: PersonModel) {
    forall i, g :: 0 <= i < |names| && 0 <= n && n - 1 <= |names[i].name| && g in NgramIndex.Windows(names[i].name, n) ==>
      g in r && names[i] in r[g] && r[g][names[i]] == person
  }

  /** Every entry of `b` whose key is not among the slots is in `r` unchanged. */
  ghost predicate Keeps(b: NgramIndex.Buckets<NameSlot, PersonModel>, r: NgramIndex.Buckets<NameSlot, PersonModel>,
                        names: seq<NameSlot>) {
    forall g, k :: g in b && k in b[g] && k !in names ==> g in r && k in r[g] && r[g][k] == b[g][k]
  }

  /** Every entry of `r` is a slot's, valued `person`, or an entry of `b`. */
  ghost predicate Only(b: NgramIndex.Buckets<NameSlot, PersonModel>, r: NgramIndex.Buckets<NameSlot, PersonModel>,
                       names: seq<NameSlot>, person: PersonModel) {
    forall g, k :: g in r && k in r[g] ==>
      (k in names && r[g][k] == person) || (g in b && k in b[g] && r[g][k] == b[g][k])
  }

  lemma KeepsCompose(b: NgramIndex.Buckets<NameSlot, PersonModel>, b': NgramIndex.Buckets<NameSlot, PersonModel>,
                     r: NgramIndex.Buckets<NameSlot, PersonModel>, names: seq<NameSlot>)
    requires names != [] && Keeps(b, b', [names[0]]) && Keeps(b', r, names[1..])
    ensures Keeps(b, r, names)
  {
    assert names == [names[0]] + names[1..];
  }

  lemma OnlyCompose(b: NgramIndex.Buckets<NameSlot, PersonModel>, b': NgramIndex.Buckets<NameSlot, PersonModel>,
                    r: NgramIndex.Buckets<NameSlot, PersonModel>, names: seq<NameSlot>, person: PersonModel)
    requires names != [] && Only(b, b', [names[0]], person) && Only(b', r, names[1..], person)
    ensures Only(b, r, names, person)
  {
    assert names == [names[0]] + names[1..];
  }

  lemma IndexedCompose(b': NgramIndex.Buckets<NameSlot, PersonModel>, r: NgramIndex.Buckets<NameSlot, PersonModel>,
                       n: int, names: seq<NameSlot>, person: PersonModel)
    requires names != [] && names[0] !in names[1..]
    requires Indexed(b', n, [names[0]], person) && Keeps(b', r, names[1..]) && Indexed(r, n, names[1..], person)
    ensures Indexed(r, n, names, person)
  {
    forall i, g | 0 <= i < |names| && 0 <= n && n - 1 <= |names[i].name| && g in NgramIndex.Windows(names[i].name, n)
      ensures g in r && names[i] in r[g] && r[g][names[i]] == person
    {
      if i == 0 {
        assert [names[0]][0] == names[0];
      } else {
        assert names[i] == names[1..][i - 1];
      }
    }
  }

  lemma DistinctTail(names: seq<NameSlot>)
    requires names != [] && DistinctSlots(names)
    ensures DistinctSlots(names[1..]) && names[0] !in names[1..]
  {
    forall a, b | 0 <= a < b < |names[1..]|
      ensures names[1..][a] != names[1..][b]
    {
      assert names[1..][a] == names[a + 1] && names[1..][b] == names[b + 1];
    }
    forall j | 0 <= j < |names[1..]|
      ensures names[1..][j] != names[0]
    {
      assert names[1..][j] == names[j + 1];
    }
  }

  /** Indexing a whole name keeps the entries of other keys. */
  lemma {:induction false} IndexSlotsKept(b: NgramIndex.Buckets<NameSlot, PersonModel>, n: int, names: seq<NameSlot>,
                                          person: PersonModel)
    requires 1 <= n
    requires forall i :: 0 <= i < |names| ==> n - 1 <= |names[i].name|
    ensures Keeps(b, IndexSlots(b, n, names, person), names)
    decreases |names|
  {
    if names != [] {
      var b' := AddSlot(b, n, names[0], person);
      IndexSlotsKept(b', n, names[1..], person);
      KeepsCompose(b, b', IndexSlots(b', n, names[1..], person), names);
    }
  }

  /** Indexing a whole name adds entries of its slots only. */
  lemma {:induction false} IndexSlotsAddsOnly(b: NgramIndex.Buckets<NameSlot, PersonModel>, n: int, names: seq<NameSlot>,
                                              person: PersonModel)
    requires 1 <= n
    requires forall i :: 0 <= i < |names| ==> n - 1 <= |names[i].name|
    ensures Only(b, IndexSlots(b, n, names, person), names, person)
    decreases |names|
  {
    if names != [] {
      var b' := AddSlot(b, n, names[0], person);
      IndexSlotsAddsOnly(b', n, names[1..], person);
      OnlyCompose(b, b', IndexSlots(b', n, names[1..], person), names, person);
    }
  }

  /** Indexing a whole name of distinct slots indexes each of them. */
  lemma {:induction false} IndexSlotsIndexed(b: NgramIndex.Buckets<NameSlot, PersonModel>, n: int, names: seq<NameSlot>,
                                             person: PersonModel)
    requires 1 <= n && DistinctSlots(names)
    requires forall i :: 0 <= i < |names| ==> n - 1 <= |names[i].name|
    ensures Indexed(IndexSlots(b, n, names, person), n, names, person)
    decreases |names|
  {
    if names != [] {
      var b' := AddSlot(b, n, names[0], person);
      DistinctTail(names);
      IndexSlotsIndexed(b', n, names[1..], person);
      IndexSlotsKept(b', n, names[1..], person);
      IndexedCompose(b', IndexSlots(b', n, names[1..], person), n, names, person);
    }
  }

  /** The slots of a person with the given prepared words: slot `i` holds word `i`. */
  function NewSlots(id: int, words: seq<string>): (r: seq<NameSlot>)
    ensures |r| == |words| && DistinctSlots(r)
    ensures forall i :: 0 <= i < |words| ==> r[i] == NewNameSlot(id, i, words[i])
  {
    seq(|words|, i requires 0 <= i < |words| => NewNameSlot(id, i, words[i]))
  }

  /** Cataloguing a well-formed person under its id keeps the catalog well formed. */
  lemma WellFormedAfter(c: map<int, PersonModel>, person: PersonModel)
    requires CatalogWellFormed(c) && Ingested(person, person.id)
    ensures CatalogWellFormed(c[person.id := person])
  {
  }

  /** Adding a person whose slots are its own keeps every indexed slot pointing into the catalog. */
  lemma InCatalogAfter(b: NgramIndex.Buckets<NameSlot, PersonModel>, b': NgramIndex.Buckets<NameSlot, PersonModel>,
                       c: map<int, PersonModel>, person: PersonModel)
    requires IndexInCatalog(b, c) && Only(b, b', person.names, person)
    requires forall i :: 0 <= i < |person.names| ==> person.names[i].personId == person.id
    ensures IndexInCatalog(b', c[person.id := person])
  {
    forall g, slot | g in b' && slot in b'[g]
      ensures slot.personId in c[person.id := person] && b'[g][slot].id == slot.personId
    {
      if slot in person.names {
        var i :| 0 <= i < |person.names| && person.names[i] == slot;
      }
    }
  }
}
