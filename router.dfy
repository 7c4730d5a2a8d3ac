/**
 * `recommend`: the intent cascade that picks one strategy for a query, and
 * the answer each strategy gives. The tests run in a fixed order: the
 * collection pattern (taken only when some title holds the phrase), a fuzzy
 * title hit, the three person patterns, and the general search for
 * everything else.
 */
module Router {
  import opened Wrappers
  import opened Text
  import opened Frame
  import opened Ranking
  import opened Results
  import opened Patterns
  import opened Fuzzy
  import opened CollectionSearch
  import opened Strategies

  /** The strategy a query is routed to, with what the router extracted for it. */
  datatype Intent =
    | Collection(phrase: string)
    | Title(idx: nat)
    | Person(name: string)
    | General

  /** The defaults of `top_n` and `fuzzy_title_cutoff`. */
  const DefaultTopN: int := 10
  const DefaultTitleCutoff: real := 85.0

  /** `coll_m.group(1).strip()`, when the collection pattern matches. */
  function CollectionQuery(low: string): (r: Option<string>)
    ensures r.Some? <==> exists s: nat :: s <= |low| && GroupAt(low, CollectionPat, 0, s).Some?
    ensures r.Some? ==> exists s: nat :: FirstGroupAt(low, CollectionPat, 0, s) && r.value == Strip(Slice(low, GroupAt(low, CollectionPat, 0, s).value))
  {
    var m := FirstGroup(low, CollectionPat, 0);
    if m.None? then None else Some(Strip(m.value))
  }

  /** The first person pattern can match somewhere in `low`. */
  ghost predicate WithApplies(low: string) {
    exists s: nat :: s <= |low| && GroupAt(low, WithPat, 4, s).Some?
  }

  /** The second person pattern can match somewhere in `low`. */
  ghost predicate NameMoviesApplies(low: string) {
    exists s: nat :: s <= |low| && GroupAt(low, NameMoviesPat, 0, s).Some?
  }

  /** The third person pattern can match somewhere in `low`. */
  ghost predicate ByApplies(low: string) {
    exists s: nat :: s <= |low| && GroupAt(low, ByPat, 2, s).Some?
  }

  /** `person_m.group(1).strip()` of the first of the three person patterns
      that matches: there is a name exactly when one of them can match. */
  function PersonName(low: string): (r: Option<string>)
    ensures r.Some? <==> WithApplies(low) || NameMoviesApplies(low) || ByApplies(low)
  {
    var w := FirstGroup(low, WithPat, 4);
    if w.Some? then Some(Strip(w.value))
    else
      var n := FirstGroup(low, NameMoviesPat, 0);
      if n.Some? then Some(Strip(n.value))
      else
        var b := FirstGroup(low, ByPat, 2);
        if b.Some? then Some(Strip(b.value)) else None
  }

  /** When the first person pattern matches, the name is its group 1 from
      the earliest match, stripped. */
  lemma PersonNameFromWith(low: string)
    requires FirstGroup(low, WithPat, 4).Some?
    ensures exists s: nat :: FirstGroupAt(low, WithPat, 4, s) && PersonName(low) == Some(Strip(Slice(low, GroupAt(low, WithPat, 4, s).value)))
  {
  }

  /** When only the second matches, the name is its group 1 from the
      earliest match, stripped. */
  lemma PersonNameFromNameMovies(low: string)
    requires FirstGroup(low, WithPat, 4).None? && FirstGroup(low, NameMoviesPat, 0).Some?
    ensures exists s: nat :: FirstGroupAt(low, NameMoviesPat, 0, s) && PersonName(low) == Some(Strip(Slice(low, GroupAt(low, NameMoviesPat, 0, s).value)))
  {
  }

  /** When only the third matches, the name is its group 1 from the
      earliest match, stripped. */
  lemma PersonNameFromBy(low: string)
    requires FirstGroup(low, WithPat, 4).None? && FirstGroup(low, NameMoviesPat, 0).None? && FirstGroup(low, ByPat, 2).Some?
    ensures exists s: nat :: FirstGroupAt(low, ByPat, 2, s) && PersonName(low) == Some(Strip(Slice(low, GroupAt(low, ByPat, 2, s).value)))
  {
  }

  // ---- precedence ----

  /** The collection pattern matches and some title holds its stripped phrase. */
  predicate CollectionApplies(rows: seq<Row>, low: string) {
    var q := CollectionQuery(low);
    q.Some? && exists i :: 0 <= i < |rows| && TitleHas(rows[i], q.value)
  }

  /** Some lower-cased title scores at least `cutoff` against the query. */
  ghost predicate TitleApplies(titlesLower: seq<string>, scorer: Scorer, cutoff: real, text: string) {
    exists i :: 0 <= i < |titlesLower| && scorer(Strip(Lower(text)), titlesLower[i]) >= cutoff
  }

  /** Some row of the catalogue matches exactly when the mask is not empty. */
  lemma MaskNotEmpty(rows: seq<Row>, phrase: string)
    ensures |MatchingIdx(rows, phrase, |rows|)| > 0 <==> exists i :: 0 <= i < |rows| && TitleHas(rows[i], phrase)
  {
    var idxs := MatchingIdx(rows, phrase, |rows|);
    if |idxs| > 0 {
      assert TitleHas(rows[idxs[0]], phrase);
    }
  }

  /** Which strategy `recommend` runs for the stripped query `text`: the
      first whose test passes, so every query reaches exactly one. */
  function Route(c: Catalogue, scorer: Scorer, cutoff: real, text: string): (r: Intent)
    ensures r.Title? ==> r.idx < |c.titlesLower|
    ensures r.Person? ==> PersonName(Lower(text)) == Some(r.name)
    ensures r.Collection? <==> CollectionApplies(c.table.rows, Lower(text))
    ensures r.Title? <==> !CollectionApplies(c.table.rows, Lower(text)) && TitleApplies(c.titlesLower, scorer, cutoff, text)
    ensures r.Person? <==>
              !CollectionApplies(c.table.rows, Lower(text)) && !TitleApplies(c.titlesLower, scorer, cutoff, text) && PersonName(Lower(text)).Some?
    ensures r.General? <==>
              !CollectionApplies(c.table.rows, Lower(text)) && !TitleApplies(c.titlesLower, scorer, cutoff, text) && PersonName(Lower(text)).None?
  {
    var low := Lower(text);
    var coll := CollectionQuery(low);
    assert coll.Some? ==> (|MatchingIdx(c.table.rows, coll.value, |c.table.rows|)| > 0 <==> CollectionApplies(c.table.rows, low)) by {
      if coll.Some? {
        MaskNotEmpty(c.table.rows, coll.value);
      }
    }
    if coll.Some? && |MatchingIdx(c.table.rows, coll.value, |c.table.rows|)| > 0 then Collection(coll.value)
    else
      var idx := FuzzyTitleIndex(text, c.titlesLower, scorer, cutoff);
      if idx.Some? then Title(idx.value)
      else
        var person := PersonName(low);
        if person.Some? then Person(person.value) else General
  }

  /** `recommend(query, top_n=10, fuzzy_title_cutoff=85)`: catalogue
      records exactly when the query is routed to the collection branch,
      result rows otherwise. */
  function Recommendations(c: Catalogue, sim: Similarity, scorer: Scorer, query: string,
                           topN: int := DefaultTopN, cutoff: real := DefaultTitleCutoff): (r: Recommendation)
    requires c.Ok()
    ensures r.Records? <==> Route(c, scorer, cutoff, Strip(query)).Collection?
  {
    var text := Strip(query);
    match Route(c, scorer, cutoff, text)
    case Collection(phrase) => Records(CollectionRecords(c.table.rows, "Year" in c.table.columns, phrase, topN))
    case Title(idx) => Ranked(TitleResult(c, sim, idx, topN))
    case Person(name) => Ranked(RankedRows(c.table.rows, PersonRanking(c, sim, text, name, topN)))
    case General => Ranked(RankedRows(c.table.rows, GeneralRanking(c, sim, scorer, text, topN)))
  }

  /** The phrase of a collection query is the stripped group 1 of the earliest match. */
  lemma RouteCollectionPhrase(c: Catalogue, scorer: Scorer, cutoff: real, text: string)
    ensures var r := Route(c, scorer, cutoff, text);
      r.Collection? ==>
        && (exists s: nat :: FirstGroupAt(Lower(text), CollectionPat, 0, s) && r.phrase == Strip(Slice(Lower(text), GroupAt(Lower(text), CollectionPat, 0, s).value)))
        && (exists i :: 0 <= i < |c.table.rows| && TitleHas(c.table.rows[i], r.phrase))
  {
    var q := CollectionQuery(Lower(text));
    if q.Some? {
      MaskNotEmpty(c.table.rows, q.value);
    }
  }

  /** The title of a title query scores highest of all, and no earlier title as high. */
  lemma RouteTitleIsBest(c: Catalogue, scorer: Scorer, cutoff: real, text: string)
    ensures var r := Route(c, scorer, cutoff, text);
      var q := Strip(Lower(text));
      r.Title? ==>
        && scorer(q, c.titlesLower[r.idx]) >= cutoff
        && (forall i :: 0 <= i < |c.titlesLower| ==> scorer(q, c.titlesLower[i]) <= scorer(q, c.titlesLower[r.idx]))
        && (forall i :: 0 <= i < r.idx ==> scorer(q, c.titlesLower[i]) < scorer(q, c.titlesLower[r.idx]))
  {
  }

  // ---- what each branch returns ----

  /** A collection query returns catalogue rows whose lower-cased title
      holds the phrase: the first `min(top_n, #matches)` of the matches in
      ascending year order (NaN last) when the catalogue has a "Year"
      column, so no left-out match has an earlier year than a kept one,
      and in catalogue order otherwise. */
  lemma CollectionAnswer(c: Catalogue, sim: Similarity, scorer: Scorer, query: string, topN: int, cutoff: real)
    requires c.Ok()
    requires Route(c, scorer, cutoff, Strip(query)).Collection?
    ensures var phrase := Route(c, scorer, cutoff, Strip(query)).phrase;
      var r := Recommendations(c, sim, scorer, query, topN, cutoff);
      var rows := c.table.rows;
      && r.Records?
      && (forall x :: x in r.records ==> x in rows && TitleHas(x, phrase))
      && (topN >= 0 ==> |r.records| <= topN)
      && (topN >= 0 ==> |r.records| == Min(topN, |MatchingIdx(rows, phrase, |rows|)|))
      && r.records == OrderedMatches(rows, "Year" in c.table.columns, phrase)[..|r.records|]
      && (|MatchingIdx(rows, phrase, |rows|)| <= topN ==> forall i :: 0 <= i < |rows| && TitleHas(rows[i], phrase) ==> rows[i] in r.records)
      && ("Year" in c.table.columns ==> YearOrdered(r.records))
      && ("Year" in c.table.columns ==>
            var m := OrderedMatches(rows, true, phrase);
            forall a, k :: 0 <= a < |r.records| <= k < |m| ==> KeyBefore(YearKey(r.records[a]), YearKey(m[k])))
  {
    var phrase := Route(c, scorer, cutoff, Strip(query)).phrase;
    CollectionRecordsBounds(c.table.rows, "Year" in c.table.columns, phrase, topN);
  }

  /** A title query returns `min(top_n, n)` rows, each scored with its
      similarity to the named film, no film twice, with scores that do not
      increase. */
  lemma TitleAnswer(c: Catalogue, sim: Similarity, scorer: Scorer, query: string, topN: int, cutoff: real)
    requires c.Ok()
    requires Route(c, scorer, cutoff, Strip(query)).Title?
    ensures var idx := Route(c, scorer, cutoff, Strip(query)).idx;
      var top := TitleRanking(c.docs, sim, idx, topN);
      var r := Recommendations(c, sim, scorer, query, topN, cutoff);
      && r.Ranked?
      && |r.rows| == |top|
      && (topN >= 0 ==> |r.rows| == Min(topN, |c.table.rows|))
      && (forall k :: 0 <= k < |r.rows| ==> r.rows[k] == Project(c.table.rows[top[k]], TitleSims(c.docs, sim, idx)[top[k]]))
      && (forall a, b :: 0 <= a < b < |r.rows| ==> r.rows[a].score >= r.rows[b].score)
  {
    var idx := Route(c, scorer, cutoff, Strip(query)).idx;
    TitleRankingFacts(c.docs, sim, idx, topN);
  }

  /** A person query returns `min(top_n, n)` rows from the over-fetch
      window, in order of non-increasing boosted score. */
  lemma PersonAnswer(c: Catalogue, sim: Similarity, scorer: Scorer, query: string, topN: int, cutoff: real)
    requires c.Ok()
    requires Route(c, scorer, cutoff, Strip(query)).Person?
    ensures var name := Route(c, scorer, cutoff, Strip(query)).name;
      var ranked := PersonRanking(c, sim, Strip(query), name, topN);
      var r := Recommendations(c, sim, scorer, query, topN, cutoff);
      && r.Ranked?
      && (topN >= 0 ==> |r.rows| == Min(topN, |c.table.rows|))
      && |r.rows| == |ranked|
      && (forall k :: 0 <= k < |r.rows| ==> r.rows[k] == Project(c.table.rows[ranked[k].0], ranked[k].1))
      && (forall a, b :: 0 <= a < b < |r.rows| ==> r.rows[a].score >= r.rows[b].score)
  {
    var name := Route(c, scorer, cutoff, Strip(query)).name;
    PersonRankingFacts(c, sim, Strip(query), name, topN);
  }

  /** The general search returns `min(top_n, n)` rows from the over-fetch
      window, in order of non-increasing boosted score. */
  lemma GeneralAnswer(c: Catalogue, sim: Similarity, scorer: Scorer, query: string, topN: int, cutoff: real)
    requires c.Ok()
    requires Route(c, scorer, cutoff, Strip(query)).General?
    ensures var ranked := GeneralRanking(c, sim, scorer, Strip(query), topN);
      var r := Recommendations(c, sim, scorer, query, topN, cutoff);
      && r.Ranked?
      && (topN >= 0 ==> |r.rows| == Min(topN, |c.table.rows|))
      && |r.rows| == |ranked|
      && (forall k :: 0 <= k < |r.rows| ==> r.rows[k] == Project(c.table.rows[ranked[k].0], ranked[k].1))
      && (forall a, b :: 0 <= a < b < |r.rows| ==> r.rows[a].score >= r.rows[b].score)
  {
    GeneralRankingFacts(c, sim, scorer, Strip(query), topN);
  }
}
