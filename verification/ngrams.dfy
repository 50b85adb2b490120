/** N-gram values and their ordinal comparer (`Ngram`, `NgramComparer`). */
module Ngrams {

  /** An n-gram: a window of `length` characters of `backing` starting at `offset`
      (a `ReadOnlyMemory<char>` slice of the prepared word). */
  datatype Ngram = Ngram(backing: string, offset: nat, length: nat) {
    predicate Valid() {
      offset + length <= |backing|
    }

    /** The `i`-th character of the span. */
    function At(i: nat): char
      requires Valid() && i < length
    {
      backing[offset + i]
    }

    /** The characters the n-gram stands for. */
    function Content(): string
      requires Valid()
    {
      backing[offset..offset + length]
    }
  }

  /** `NgramComparer.Equals` with the default `StringComparison.Ordinal`: span equality, character by character. */
  predicate NgramEquals(a: Ngram, b: Ngram)
    requires a.Valid() && b.Valid()
  {
    a.length == b.length &&
    forall i :: 0 <= i < a.length ==> a.At(i) == b.At(i)
  }

  /** Ordinal equality is exactly equality of the characters, whatever string backs each n-gram. */
  lemma EqualsIffSameContent(a: Ngram, b: Ngram)
    requires a.Valid() && b.Valid()
    ensures NgramEquals(a, b) <==> a.Content() == b.Content()
  {
    if NgramEquals(a, b) {
      forall i | 0 <= i < a.length
        ensures a.Content()[i] == b.Content()[i]
      {
        assert a.Content()[i] == a.At(i);
        assert b.Content()[i] == b.At(i);
      }
      assert a.Content() == b.Content();
    }
    if a.Content() == b.Content() {
      forall i | 0 <= i < a.length
        ensures a.At(i) == b.At(i)
      {
        assert a.Content()[i] == b.Content()[i];
      }
    }
  }

  /** The comparer is an equivalence relation. */
  lemma EqualsIsEquivalence(a: Ngram, b: Ngram, c: Ngram)
    requires a.Valid() && b.Valid() && c.Valid()
    ensures NgramEquals(a, a)
    ensures NgramEquals(a, b) ==> NgramEquals(b, a)
    ensures NgramEquals(a, b) && NgramEquals(b, c) ==> NgramEquals(a, c)
  {
    EqualsIffSameContent(a, b);
    EqualsIffSameContent(b, c);
    EqualsIffSameContent(a, c);
    EqualsIffSameContent(b, a);
  }

  /** `NgramComparer.GetHashCode`: `string.GetHashCode(span, Ordinal)`, a function of the characters only;
      the per-process string hash is the parameter `hashOf`. */
  function NgramHash(hashOf: string -> int, g: Ngram): int
    requires g.Valid()
  {
    hashOf(g.Content())
  }

  /** Equal n-grams hash equally. */
  lemma EqualNgramsHashEqually(hashOf: string -> int, a: Ngram, b: Ngram)
    requires a.Valid() && b.Valid()
    requires NgramEquals(a, b)
    ensures NgramHash(hashOf, a) == NgramHash(hashOf, b)
  {
    EqualsIffSameContent(a, b);
  }

  /** The same characters taken from different strings at different offsets are the same n-gram. */
  lemma BackingIrrelevant()
    ensures var a := Ngram("[[AB]]", 2, 3);
            var b := Ngram("AB]", 0, 3);
            a.backing != b.backing && a.offset != b.offset && NgramEquals(a, b)
  {
    var a := Ngram("[[AB]]", 2, 3);
    var b := Ngram("AB]", 0, 3);
    assert a.Content() == "AB]" == b.Content();
    EqualsIffSameContent(a, b);
  }
}
