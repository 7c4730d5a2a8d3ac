/**
 * `SemanticMovieRecommender`: the catalogue with the search text of every
 * film, the lower-cased titles it matches queries against, and `recommend`,
 * which routes a query to one strategy and builds the result rows.
 */
module Recommender {
  import opened Wrappers
  import opened Text
  import opened Frame
  import opened Ranking
  import opened Results
  import opened Patterns
  import opened Fuzzy
  import opened SearchDoc
  import opened CollectionSearch
  import opened Strategies
  import opened Router

  const SearchTextColumn: string := "_search_text"

  /** A catalogue row with its search text stored under "_search_text". */
  function WithSearchText(r: Row): (r': Row)
    ensures r'.Keys == r.Keys + {SearchTextColumn}
    ensures r'[SearchTextColumn] == Str(SearchText(r))
    ensures forall k :: k in r && k != SearchTextColumn ==> r'[k] == r[k]
  {
    r[SearchTextColumn := Str(SearchText(r))]
  }

  /** An entry of `titles_lower`: the title through `astype(str)`, lower-cased and stripped. */
  function TitleKey(r: Row): string
    requires "Title" in r
  {
    Strip(Lower(AsStr(r["Title"])))
  }

  /** Lower-casing and stripping leaves nothing to lower-case or strip. */
  lemma StripLowerNormalised(s: string)
    ensures Lower(Strip(Lower(s))) == Strip(Lower(s))
    ensures Strip(Strip(Lower(s))) == Strip(Lower(s))
  {
    var l := Lower(s);
    var t := Strip(l);
    var a: nat :| StrippedAt(l, a, t);
    forall k | 0 <= k < |t| ensures Lower(t)[k] == t[k] {
      assert t[k] == l[a + k] == LowerChar(s[a + k]);
      LowerCharIdempotent(s[a + k]);
    }
    assert Lower(t) == t;
    StripNoSpace(t);
  }

  /** Every entry of `titles_lower` is already lower-case and stripped. */
  lemma TitleKeyNormalised(r: Row)
    requires "Title" in r
    ensures Lower(TitleKey(r)) == TitleKey(r)
    ensures Strip(TitleKey(r)) == TitleKey(r)
  {
    StripLowerNormalised(AsStr(r["Title"]));
  }

  /** The genre boosts alone are the boosts when the query names no film
      to be like; with 0.1 times each film's similarity to film `ref` added,
      they are the boosts when it names `ref`. */
  lemma BoostsPointwise(c: Catalogue, sim: Similarity, low: string, ref: Option<nat>, b: seq<real>)
    requires c.Ok() && |b| == |c.table.rows| && (ref.Some? ==> ref.value < |c.docs|)
    requires ref.None? ==> forall j :: 0 <= j < |b| ==> b[j] == GenreBoost(low, c.table.rows[j])
    requires ref.Some? ==> forall j :: 0 <= j < |b| ==> b[j] == GenreBoost(low, c.table.rows[j]) + LikeBoostWeight * sim(c.docs[ref.value], c.docs[j])
    ensures b == BoostsFor(c, sim, low, ref)
  {
  }

  class SemanticMovieRecommender {
    /** `self.df`: the catalogue with its "_search_text" column. */
    const df: Table
    /** The "_search_text" column, the texts `self.embeddings` encodes. */
    const docs: seq<string>
    /** Cosine similarity of the embeddings of two texts. */
    const sim: Similarity
    /** `fuzz.WRatio`. */
    const scorer: Scorer
    /** `self.titles`: the titles through `astype(str)`. */
    const titles: seq<string>
    /** `self.titles_lower`. */
    const titlesLower: seq<string>

    ghost predicate Valid() {
      && WellFormed(df)
      && "Title" in df.columns
      && |docs| == |df.rows| && |titles| == |df.rows| && |titlesLower| == |df.rows|
    }

    /** What `recommend` reads of the recommender. */
    function AsCatalogue(): (c: Catalogue)
      requires Valid()
      ensures c.Ok()
    {
      Catalogue(df, docs, titlesLower)
    }

    /** `__init__` on a table that has a "Title" column: every row gains its
        search text, and one title and one lower-cased, stripped title is
        kept per row, in row order. */
    constructor(input: Table, sim: Similarity, scorer: Scorer)
      requires WellFormed(input) && "Title" in input.columns
      ensures Valid()
      ensures df.columns == input.columns + {SearchTextColumn}
      ensures |df.rows| == |input.rows|
      ensures forall i :: 0 <= i < |input.rows| ==> df.rows[i] == WithSearchText(input.rows[i])
      ensures forall i :: 0 <= i < |input.rows| ==> docs[i] == SearchText(input.rows[i])
      ensures forall i :: 0 <= i < |input.rows| ==> titles[i] == AsStr(input.rows[i]["Title"])
      ensures forall i :: 0 <= i < |input.rows| ==> titlesLower[i] == TitleKey(input.rows[i])
      ensures this.sim == sim && this.scorer == scorer
    {
      var rows := input.rows;
      df := Table(input.columns + {SearchTextColumn}, seq(|rows|, i requires 0 <= i < |rows| => WithSearchText(rows[i])));
      docs := seq(|rows|, i requires 0 <= i < |rows| => SearchText(rows[i]));
      titles := seq(|rows|, i requires 0 <= i < |rows| => AsStr(rows[i]["Title"]));
      titlesLower := seq(|rows|, i requires 0 <= i < |rows| => TitleKey(rows[i]));
      this.sim := sim;
      this.scorer := scorer;
    }

    /** `SemanticMovieRecommender(df)`, which raises `ValueError` exactly
        when the table has no "Title" column. */
    static method Create(input: Table, sim: Similarity, scorer: Scorer) returns (r: Result<SemanticMovieRecommender, string>)
      requires WellFormed(input)
      ensures r.Failure? <==> "Title" !in input.columns
      ensures r.Success? ==> fresh(r.value) && r.value.Valid() && r.value.df.columns == input.columns + {SearchTextColumn}
      ensures r.Success? ==> |r.value.titlesLower| == |input.rows|
      ensures r.Success? ==> forall i :: 0 <= i < |input.rows| ==> r.value.titlesLower[i] == TitleKey(input.rows[i])
    {
      if "Title" !in input.columns {
        return Failure("DataFrame must have a 'Title' column.");
      }
      var rec := new SemanticMovieRecommender(input, sim, scorer);
      return Success(rec);
    }

    /** The title branch's `sims`: the similarity of film `idx` to every
        film, then `sims[idx] = -1.0`. */
    method NeighbourSims(idx: nat) returns (sims: array<real>)
      requires Valid() && idx < |docs|
      ensures fresh(sims)
      ensures sims[..] == TitleSims(docs, sim, idx)
    {
      sims := new real[|docs|](j requires 0 <= j < |docs| => sim(docs[idx], docs[j]));
      sims[idx] := ExcludedSim;
      assert sims[..] == Sims(docs, sim, docs[idx])[idx := ExcludedSim];
    }

    /** Adding one more word to the count adds one exactly when it counts. */
    static lemma GenreHitsStep(low: string, genre: string, words: seq<string>, k: nat)
      requires k < |words|
      ensures GenreHits(low, genre, words[..k + 1])
           == GenreHits(low, genre, words[..k]) + (if GenreHit(low, genre, words[k]) then 1 else 0)
    {
      assert words[..k + 1][..k] == words[..k];
    }

    /** `boosts += mask.astype(float).values * 0.07` for the films whose
        genres contain `g`. */
    method AddGenreWord(boosts: array<real>, g: string)
      requires Valid() && boosts.Length == |df.rows|
      modifies boosts
      ensures forall j :: 0 <= j < boosts.Length ==>
                boosts[j] == old(boosts[j]) + (if Contains(GenreText(df.rows[j]), g) then 1.0 else 0.0) * GenreBoostValue
    {
      var i := 0;
      while i < boosts.Length
        invariant 0 <= i <= boosts.Length
        invariant forall j :: 0 <= j < i ==>
                    boosts[j] == old(boosts[j]) + (if Contains(GenreText(df.rows[j]), g) then 1.0 else 0.0) * GenreBoostValue
        invariant forall j :: i <= j < boosts.Length ==> boosts[j] == old(boosts[j])
      {
        boosts[i] := boosts[i] + (if Contains(GenreText(df.rows[i]), g) then 1.0 else 0.0) * GenreBoostValue;
        i := i + 1;
      }
    }

    /** The genre loop of the general branch over the listed genre words:
        for each word that is a whole word of the query, 0.07 is added to
        the boost of every film whose genres contain it. */
    method GenreBoostArray(low: string, words: seq<string>) returns (boosts: array<real>)
      requires Valid()
      ensures fresh(boosts) && boosts.Length == |df.rows|
      ensures forall i :: 0 <= i < boosts.Length ==>
                boosts[i] == GenreBoostValue * GenreHits(low, GenreText(df.rows[i]), words) as real
    {
      var n := |df.rows|;
      boosts := new real[n](_ => 0.0);
      var k := 0;
      while k < |words|
        invariant 0 <= k <= |words| && boosts.Length == n
        invariant forall i :: 0 <= i < n ==> boosts[i] == GenreBoostValue * GenreHits(low, GenreText(df.rows[i]), words[..k]) as real
      {
        var g := words[k];
        if HasWholeWord(low, g) {
          AddGenreWord(boosts, g);
        }
        forall j | 0 <= j < n
          ensures boosts[j] == GenreBoostValue * GenreHits(low, GenreText(df.rows[j]), words[..k + 1]) as real
        {
          GenreHitsStep(low, GenreText(df.rows[j]), words, k);
        }
        k := k + 1;
      }
      assert words[..k] == words;
    }

    /** The "like" step of the general branch: 0.1 times each film's
        similarity to film `ref` is added to its boost. */
    method AddLikeBoost(boosts: array<real>, ref: nat)
      requires Valid() && ref < |docs| && boosts.Length == |docs|
      modifies boosts
      ensures forall j :: 0 <= j < boosts.Length ==> boosts[j] == old(boosts[j]) + LikeBoostWeight * sim(docs[ref], docs[j])
    {
      var i := 0;
      while i < boosts.Length
        invariant 0 <= i <= boosts.Length
        invariant forall j :: 0 <= j < i ==> boosts[j] == old(boosts[j]) + LikeBoostWeight * sim(docs[ref], docs[j])
        invariant forall j :: i <= j < boosts.Length ==> boosts[j] == old(boosts[j])
      {
        boosts[i] := boosts[i] + LikeBoostWeight * sim(docs[ref], docs[i]);
        i := i + 1;
      }
    }

    /** The general branch's `boosts` once the film the query is like, if
        any, is known: the genre boosts, then the "like" step. */
    method BoostArray(low: string, ref: Option<nat>) returns (boosts: array<real>)
      requires Valid() && (ref.Some? ==> ref.value < |docs|)
      ensures fresh(boosts)
      ensures boosts[..] == BoostsFor(AsCatalogue(), sim, low, ref)
    {
      boosts := GenreBoostArray(low, GenreWords);
      if ref.Some? {
        AddLikeBoost(boosts, ref.value);
      }
      BoostsPointwise(AsCatalogue(), sim, low, ref, boosts[..]);
    }

    /** The general branch's `boosts`: the genre boosts, then, when a "like
        <title>" query names a film, 0.1 times its similarity to each film. */
    method GeneralBoostArray(low: string) returns (boosts: array<real>)
      requires Valid()
      ensures fresh(boosts)
      ensures boosts[..] == GeneralBoosts(AsCatalogue(), sim, scorer, low)
    {
      var ref := LikeReference(titlesLower, scorer, low);
      boosts := BoostArray(low, ref);
    }

    /** `_rows_from_idxs(idxs, scores)`: one result row per pair of
        `zip(idxs, scores)`, in that order. */
    method RowsFromIdxs(idxs: seq<nat>, scores: seq<real>) returns (rows: seq<ResultRow>)
      requires Valid()
      requires forall k :: 0 <= k < |idxs| ==> idxs[k] < |df.rows|
      ensures rows == ProjectAll(df.rows, idxs, scores)
    {
      rows := [];
      var k := 0;
      while k < Min(|idxs|, |scores|)
        invariant 0 <= k <= Min(|idxs|, |scores|)
        invariant |rows| == k
        invariant forall j :: 0 <= j < k ==> rows[j] == Project(df.rows[idxs[j]], scores[j])
      {
        rows := rows + [Project(df.rows[idxs[k]], scores[k])];
        k := k + 1;
      }
    }

    /** The title branch: the `top_n` films most similar to film `idx`,
        leaving film `idx` itself out. */
    method TitleBranch(idx: nat, topN: int) returns (rows: seq<ResultRow>)
      requires Valid() && idx < |docs|
      ensures rows == TitleResult(AsCatalogue(), sim, idx, topN)
    {
      var sims := NeighbourSims(idx);
      var top := Take(ArgsortDesc(sims[..]), topN);
      rows := RowsFromIdxs(top, Gather(sims[..], top));
    }

    /** The person branch: the over-fetched films re-ranked with 0.25 for a
        Director or Cast match. */
    method PersonBranch(text: string, person: string, topN: int) returns (rows: seq<ResultRow>)
      requires Valid()
      ensures rows == RankedRows(df.rows, PersonRanking(AsCatalogue(), sim, text, person, topN))
    {
      var ranked := PersonRanking(AsCatalogue(), sim, text, person, topN);
      rows := RowsFromIdxs(Firsts(ranked), Seconds(ranked));
    }

    /** The general branch: the over-fetched films re-ranked with the genre
        and "like" boosts. */
    method GeneralBranch(text: string, topN: int) returns (rows: seq<ResultRow>)
      requires Valid()
      ensures rows == RankedRows(df.rows, GeneralRanking(AsCatalogue(), sim, scorer, text, topN))
    {
      var boosts := GeneralBoostArray(Lower(text));
      var ranked := BoostedTop(Sims(docs, sim, text), boosts[..], topN);
      assert ranked == GeneralRanking(AsCatalogue(), sim, scorer, text, topN);
      rows := RowsFromIdxs(Firsts(ranked), Seconds(ranked));
    }

    /** `recommend(query, top_n, fuzzy_title_cutoff)`: the first branch whose
        test passes, in the order collection, title, person, general. */
    method Recommend(query: string, topN: int := DefaultTopN, fuzzyTitleCutoff: real := DefaultTitleCutoff) returns (result: Recommendation)
      requires Valid()
      ensures result == Recommendations(AsCatalogue(), sim, scorer, query, topN, fuzzyTitleCutoff)
    {
      var text := Strip(query);
      match Route(AsCatalogue(), scorer, fuzzyTitleCutoff, text)
      case Collection(phrase) =>
        result := Records(CollectionRecords(df.rows, "Year" in df.columns, phrase, topN));
      case Title(idx) =>
        var rows := TitleBranch(idx, topN);
        result := Ranked(rows);
      case Person(name) =>
        var rows := PersonBranch(text, name, topN);
        result := Ranked(rows);
      case General =>
        var rows := GeneralBranch(text, topN);
        result := Ranked(rows);
    }
  }
}
