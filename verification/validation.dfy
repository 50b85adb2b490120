/** `SearchTerroristsQueryValidator`: the rules a search query must pass before it reaches the searcher. */
module Validation {
  import opened Wrappers
  import opened Text
  import opened Domain

  /** `SearchTerroristsQuery`: the name to search for, how many results to return, and the options. */
  datatype Query = Query(fullName: Option<string>, count: Option<int>, searchOptions: Option<SearchOptions>)

  /** The three rules, in declaration order. */
  datatype Rule = FullNameRule | MinCoefficientRule | MinAverageCoefficientRule

  /** `is > 0 and <= 1`. */
  predicate InUnitRange(x: real) {
    0.0 < x <= 1.0
  }

  /** The rules the query breaks, in declaration order (FluentValidation runs every rule). */
  function Validate(q: Query): (errors: seq<Rule>)
    ensures FullNameRule in errors <==> q.fullName.None? || IsBlank(q.fullName.value)
    ensures MinCoefficientRule in errors <==>
              q.searchOptions.Some? && !InUnitRange(q.searchOptions.value.minCoefficient)
    ensures MinAverageCoefficientRule in errors <==>
              q.searchOptions.Some? && !InUnitRange(q.searchOptions.value.minAverageCoefficient)
    ensures forall i, j :: 0 <= i < j < |errors| ==> errors[i] != errors[j]
  {
    var name := if q.fullName.None? || IsBlank(q.fullName.value) then [FullNameRule] else [];
    var coefficient := match q.searchOptions
      case None => []
      case Some(o) => if InUnitRange(o.minCoefficient) then [] else [MinCoefficientRule];
    var average := match q.searchOptions
      case None => []
      case Some(o) => if InUnitRange(o.minAverageCoefficient) then [] else [MinAverageCoefficientRule];
    name + coefficient + average
  }

  /** A valid query hands the searcher a non-blank name and thresholds in (0, 1], whether it brings
      its own options or the handler substitutes `SearchOptions.Default`. */
  lemma ValidQueryMeetsSearchRanges(q: Query)
    requires Validate(q) == []
    ensures q.fullName.Some? && !IsBlank(q.fullName.value)
    ensures var o := q.searchOptions.GetOr(DefaultSearchOptions);
            InUnitRange(o.minCoefficient) && InUnitRange(o.minAverageCoefficient)
  {
    assert FullNameRule !in Validate(q);
    assert MinCoefficientRule !in Validate(q);
    assert MinAverageCoefficientRule !in Validate(q);
  }

  /** Absent options pass both option rules, whatever the name. */
  lemma NullOptionsPass(fullName: Option<string>, count: Option<int>)
    ensures MinCoefficientRule !in Validate(Query(fullName, count, None))
    ensures MinAverageCoefficientRule !in Validate(Query(fullName, count, None))
  {
  }
}
