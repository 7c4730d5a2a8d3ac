/**
 * `fuzzy_title_index`: rapidfuzz's `process.extractOne` over the lower-cased
 * titles. The similarity measure itself (`fuzz.WRatio`) is a parameter of the
 * model; what is modelled is how the best choice is picked from its scores.
 */
module Fuzzy {
  import opened Wrappers
  import opened Text

  /** A string similarity measure such as `fuzz.WRatio`, giving the pair
      (query, choice) a score from 0 to 100. */
  type Scorer = (string, string) -> real

  /** The earliest, strictly best choice among `choices[..k]` scoring at least `cutoff`. */
  function BestOf(query: string, choices: seq<string>, scorer: Scorer, cutoff: real, k: nat): (r: Option<nat>)
    requires k <= |choices|
    decreases k
    ensures r.Some? <==> exists i :: 0 <= i < k && scorer(query, choices[i]) >= cutoff
    ensures r.Some? ==> r.value < k && scorer(query, choices[r.value]) >= cutoff
    ensures r.Some? ==> forall i :: 0 <= i < k ==> scorer(query, choices[i]) <= scorer(query, choices[r.value])
    ensures r.Some? ==> forall i :: 0 <= i < r.value ==> scorer(query, choices[i]) < scorer(query, choices[r.value])
  {
    if k == 0 then None
    else
      var best := BestOf(query, choices, scorer, cutoff, k - 1);
      var score := scorer(query, choices[k - 1]);
      if score >= cutoff && (best.None? || score > scorer(query, choices[best.value])) then Some(k - 1)
      else best
  }

  /** `process.extractOne(query, choices, scorer=..., score_cutoff=cutoff)`,
      reduced to the index it reports: there is a result exactly when some
      choice scores at least `cutoff`; the result scores highest of all
      choices, and no earlier choice scores as high. */
  function ExtractOne(query: string, choices: seq<string>, scorer: Scorer, cutoff: real): (r: Option<nat>)
    ensures r.Some? <==> exists i :: 0 <= i < |choices| && scorer(query, choices[i]) >= cutoff
    ensures r.Some? ==> r.value < |choices| && scorer(query, choices[r.value]) >= cutoff
    ensures r.Some? ==> forall i :: 0 <= i < |choices| ==> scorer(query, choices[i]) <= scorer(query, choices[r.value])
    ensures r.Some? ==> forall i :: 0 <= i < r.value ==> scorer(query, choices[i]) < scorer(query, choices[r.value])
  {
    BestOf(query, choices, scorer, cutoff, |choices|)
  }

  /** `fuzzy_title_index(query, cutoff)`: the query is lower-cased and
      stripped, then matched against the lower-cased titles. Only the index
      is modelled: the matched title and score it also returns are read by no
      caller. */
  function FuzzyTitleIndex(query: string, titlesLower: seq<string>, scorer: Scorer, cutoff: real): (r: Option<nat>)
    ensures r.Some? ==> r.value < |titlesLower|
    ensures r.Some? <==> exists i :: 0 <= i < |titlesLower| && scorer(Strip(Lower(query)), titlesLower[i]) >= cutoff
    ensures r.Some? ==> var q := Strip(Lower(query));
      && scorer(q, titlesLower[r.value]) >= cutoff
      && (forall i :: 0 <= i < |titlesLower| ==> scorer(q, titlesLower[i]) <= scorer(q, titlesLower[r.value]))
      && (forall i :: 0 <= i < r.value ==> scorer(q, titlesLower[i]) < scorer(q, titlesLower[r.value]))
  {
    ExtractOne(Strip(Lower(query)), titlesLower, scorer, cutoff)
  }
}
