/**
 * The three scored strategies of `recommend`: the neighbours of a title the
 * query names, a person query re-ranked with a bonus for the films the person
 * directed or plays in, and the general search re-ranked with genre and
 * "like <title>" bonuses. The embedding model is an oracle: it enters as the
 * cosine similarity of the embeddings of two texts.
 */
module Strategies {
  import opened Wrappers
  import opened Text
  import opened Frame
  import opened Ranking
  import opened Results
  import opened Patterns
  import opened Fuzzy

  /** `util.cos_sim` of the normalised embeddings the model gives two texts. */
  type Similarity = (string, string) -> real

  /** The score the title branch writes over the named film's own similarity. */
  const ExcludedSim: real := -1.0
  /** The bonus of a person query for a film the person directed or plays in. */
  const PersonBoostValue: real := 0.25
  /** The bonus of the general search per genre word the query and the film share. */
  const GenreBoostValue: real := 0.07
  /** The weight of the similarity to the film a "like <title>" query names. */
  const LikeBoostWeight: real := 0.1
  /** The fuzzy cutoff for the title a "like <title>" query names. */
  const LikeCutoff: real := 75.0

  /** What `recommend` reads of the recommender: the table (with its
      "_search_text" column), the search text of each row, which is what was
      embedded, and the lower-cased, stripped titles. */
  datatype Catalogue = Catalogue(table: Table, docs: seq<string>, titlesLower: seq<string>)
  {
    predicate Ok() {
      |docs| == |table.rows| && |titlesLower| == |table.rows|
    }
  }

  /** `cos_sim(encode(text), embeddings)`: the similarity of `text` to every film. */
  function Sims(docs: seq<string>, sim: Similarity, text: string): (r: seq<real>)
    ensures |r| == |docs|
    ensures forall j :: 0 <= j < |docs| ==> r[j] == sim(text, docs[j])
  {
    seq(|docs|, j requires 0 <= j < |docs| => sim(text, docs[j]))
  }

  // ---- title branch ----

  /** The similarities of film `idx` to every film, with its own overwritten by -1.0. */
  function TitleSims(docs: seq<string>, sim: Similarity, idx: nat): (r: seq<real>)
    requires idx < |docs|
    ensures |r| == |docs| && r[idx] == ExcludedSim
    ensures forall j :: 0 <= j < |docs| && j != idx ==> r[j] == sim(docs[idx], docs[j])
  {
    Sims(docs, sim, docs[idx])[idx := ExcludedSim]
  }

  /** `np.argsort(-sims)[:top_n]`. */
  function TitleRanking(docs: seq<string>, sim: Similarity, idx: nat, topN: int): (r: seq<nat>)
    requires idx < |docs|
    ensures forall k :: 0 <= k < |r| ==> r[k] < |docs|
  {
    Take(ArgsortDesc(TitleSims(docs, sim, idx)), topN)
  }

  /** `_rows_from_idxs(top_idxs, sims[top_idxs])`: one record per ranked
      film, in rank order, scored with its similarity to the named film. */
  function TitleResult(c: Catalogue, sim: Similarity, idx: nat, topN: int): (r: seq<ResultRow>)
    requires c.Ok() && idx < |c.docs|
    ensures var top := TitleRanking(c.docs, sim, idx, topN);
      && |r| == |top|
      && forall k :: 0 <= k < |r| ==> r[k] == Project(c.table.rows[top[k]], TitleSims(c.docs, sim, idx)[top[k]])
  {
    var top := TitleRanking(c.docs, sim, idx, topN);
    ProjectAll(c.table.rows, top, Gather(TitleSims(c.docs, sim, idx), top))
  }

  /** The title branch returns `min(top_n, n)` films, no film twice, in
      order of non-increasing similarity to the named film. */
  lemma TitleRankingFacts(docs: seq<string>, sim: Similarity, idx: nat, topN: int)
    requires idx < |docs|
    ensures var r := TitleRanking(docs, sim, idx, topN);
      && (topN >= 0 ==> |r| == Min(topN, |docs|))
      && Distinct(r)
      && (forall a, b :: 0 <= a < b < |r| ==> TitleSims(docs, sim, idx)[r[a]] >= TitleSims(docs, sim, idx)[r[b]])
  {
    var order := ArgsortDesc(TitleSims(docs, sim, idx));
    var r := TitleRanking(docs, sim, idx, topN);
    assert forall k :: 0 <= k < |r| ==> r[k] == order[k];
  }

  /** The named film ranks after every other film more similar than -1.0:
      if it is among the results, all of those are too. */
  lemma TitleExcludesItself(docs: seq<string>, sim: Similarity, idx: nat, topN: int)
    requires idx < |docs|
    ensures idx in TitleRanking(docs, sim, idx, topN) ==>
      forall j :: 0 <= j < |docs| && j != idx && sim(docs[idx], docs[j]) > ExcludedSim ==> j in TitleRanking(docs, sim, idx, topN)
  {
    var sims := TitleSims(docs, sim, idx);
    var top := TitleRanking(docs, sim, idx, topN);
    if idx in top {
      forall j | 0 <= j < |docs| && j != idx && sim(docs[idx], docs[j]) > ExcludedSim
        ensures j in top
      {
        if j !in top {
          TakeOfArgsortIsTop(sims, topN, j);
        }
      }
    }
  }

  /** So the named film is not among the results when no more than `top_n`
      of the other films are more similar than -1.0 to it. */
  lemma TitleAbsentWhenOthersFill(docs: seq<string>, sim: Similarity, idx: nat, topN: int, others: set<nat>)
    requires idx < |docs|
    requires forall j :: j in others ==> j < |docs| && j != idx && sim(docs[idx], docs[j]) > ExcludedSim
    requires 0 <= topN <= |others|
    ensures idx !in TitleRanking(docs, sim, idx, topN)
  {
    var top := TitleRanking(docs, sim, idx, topN);
    if idx in top {
      TitleExcludesItself(docs, sim, idx, topN);
      assert |top| <= topN;
      assert |others + {idx}| == |others| + 1;
      AtMostLength(top, others + {idx});
    }
  }

  // ---- over-fetch and re-rank ----

  /** `np.argsort(-sims)[:top_n * 3]`: the candidates a re-ranking considers. */
  function Window(sims: seq<real>, topN: int): (w: seq<nat>)
    ensures forall k :: 0 <= k < |w| ==> w[k] < |sims|
    ensures forall j :: j in w ==> j < |sims|
  {
    Take(ArgsortDesc(sims), 3 * topN)
  }

  /** `sorted([(i, sims[i] + boost[i]) for i in top_idxs], reverse=True)[:top_n]`. */
  function BoostedTop(sims: seq<real>, boost: seq<real>, topN: int): (r: seq<Scored>)
    requires |boost| == |sims|
    ensures SortedDesc(r)
    ensures forall y :: y in r ==> y.0 in Window(sims, topN) && y.1 == sims[y.0] + boost[y.0]
    ensures topN >= 0 ==> |r| == Min(topN, |sims|)
  {
    var w := Window(sims, topN);
    var cands := Candidates(sims, boost, w);
    var r := Rerank(cands, topN);
    assert forall y :: y in r ==> y.0 in w && y.1 == sims[y.0] + boost[y.0] by {
      forall y | y in r ensures y.0 in w && y.1 == sims[y.0] + boost[y.0] {
        var k :| 0 <= k < |cands| && cands[k] == y;
        assert y.0 == w[k];
      }
    }
    r
  }

  /** A ranked index is ahead of every film of the window that it outscores:
      if the weaker one is returned, the stronger one is returned before it. */
  lemma BoostedOutranks(sims: seq<real>, boost: seq<real>, topN: int, a: nat, pb: nat)
    requires |boost| == |sims|
    requires a in Window(sims, topN)
    requires pb < |BoostedTop(sims, boost, topN)|
    requires sims[a] + boost[a] > BoostedTop(sims, boost, topN)[pb].1
    ensures exists pa :: 0 <= pa < pb && BoostedTop(sims, boost, topN)[pa].0 == a
  {
    var w := Window(sims, topN);
    var cands := Candidates(sims, boost, w);
    var wa :| 0 <= wa < |w| && w[wa] == a;
    var x := cands[wa];
    assert x.0 == a && x.1 == sims[a] + boost[a];
    RerankOutranks(cands, topN, x, pb);
  }

  /** `_rows_from_idxs(idxs, scores)` of a re-ranking. */
  function RankedRows(rows: seq<Row>, ranked: seq<Scored>): (r: seq<ResultRow>)
    requires forall k :: 0 <= k < |ranked| ==> ranked[k].0 < |rows|
    ensures |r| == |ranked|
    ensures forall k :: 0 <= k < |r| ==> r[k] == Project(rows[ranked[k].0], ranked[k].1)
  {
    ProjectAll(rows, Firsts(ranked), Seconds(ranked))
  }

  // ---- person branch ----

  /** `p` matches `hay` at `i` when read as a regular expression whose only
      metacharacter is `.`, which stands for any character but a newline. */
  predicate DotMatchAt(hay: string, i: int, p: string) {
    0 <= i && i + |p| <= |hay| &&
    forall k :: 0 <= k < |p| ==> if p[k] == '.' then NotNewline(hay[i + k]) else hay[i + k] == p[k]
  }

  /** `hay.str.contains(p)` for a `p` made of the characters `[a-z .'-]`, of
      which only `.` means something in a regular expression. */
  predicate DotContains(hay: string, p: string) {
    exists i :: 0 <= i <= |hay| - |p| && DotMatchAt(hay, i, p)
  }

  /** The unescaped pattern finds every literal occurrence, and finds no
      other when the name has no `.` in it. */
  lemma DotContainsLiteral(hay: string, p: string)
    ensures Contains(hay, p) ==> DotContains(hay, p)
    ensures '.' !in p ==> (DotContains(hay, p) <==> Contains(hay, p))
  {
    if Contains(hay, p) {
      var i :| 0 <= i <= |hay| - |p| && StartsAt(hay, i, p);
      assert forall k :: 0 <= k < |p| ==> hay[i + k] == p[k] by {
        forall k | 0 <= k < |p| ensures hay[i + k] == p[k] {
          assert hay[i..i + |p|][k] == p[k];
        }
      }
      assert DotMatchAt(hay, i, p);
    }
    if '.' !in p && DotContains(hay, p) {
      var i :| 0 <= i <= |hay| - |p| && DotMatchAt(hay, i, p);
      assert forall k :: 0 <= k < |p| ==> p[k] != '.';
      assert hay[i..i + |p|] == p;
      assert StartsAt(hay, i, p);
    }
  }

  /** A field as `role_masks` reads it: through `astype(str)`, lower-cased,
      "" for every row when the column is missing. */
  function RoleText(r: Row, column: string): string {
    Lower(AsStr(Get(r, column, Str(""))))
  }

  /** `dir_mask | cast_mask` for one row. */
  predicate RoleHit(r: Row, person: string) {
    var p := Strip(Lower(person));
    DotContains(RoleText(r, "Director"), p) || DotContains(RoleText(r, "Cast"), p)
  }

  /** `(dir_mask | cast_mask).astype(float).values * 0.25`. */
  function PersonBoost(rows: seq<Row>, person: string): (r: seq<real>)
    ensures |r| == |rows|
    ensures forall i :: 0 <= i < |rows| ==> r[i] == if RoleHit(rows[i], person) then PersonBoostValue else 0.0
  {
    seq(|rows|, i requires 0 <= i < |rows| => if RoleHit(rows[i], person) then PersonBoostValue else 0.0)
  }

  /** The re-ranking of a person query. */
  function PersonRanking(c: Catalogue, sim: Similarity, text: string, person: string, topN: int): (r: seq<Scored>)
    requires c.Ok()
    ensures forall k :: 0 <= k < |r| ==> r[k].0 < |c.table.rows|
  {
    BoostedTop(Sims(c.docs, sim, text), PersonBoost(c.table.rows, person), topN)
  }

  /** Every film returned for a person query comes from the top `3 * top_n`
      by raw similarity and scores its raw similarity plus 0.25 exactly when
      its Director or Cast matches the name; the scores do not increase and
      there are `min(top_n, n)` of them. */
  lemma PersonRankingFacts(c: Catalogue, sim: Similarity, text: string, person: string, topN: int)
    requires c.Ok()
    ensures var qs := Sims(c.docs, sim, text);
      var r := PersonRanking(c, sim, text, person, topN);
      && SortedDesc(r)
      && (topN >= 0 ==> |r| == Min(topN, |c.table.rows|))
      && (forall y :: y in r ==> y.0 in Window(qs, topN))
      && (forall y :: y in r && RoleHit(c.table.rows[y.0], person) ==> y.1 == qs[y.0] + PersonBoostValue)
      && (forall y :: y in r && !RoleHit(c.table.rows[y.0], person) ==> y.1 == qs[y.0])
  {
  }

  /** Of two films of the window that are equally similar to the query, one
      whose Director or Cast matches the name ranks strictly above one whose
      do not: if the second is returned, so is the first, ahead of it. */
  lemma PersonMatchOutranks(c: Catalogue, sim: Similarity, text: string, person: string, topN: int, a: nat, pb: nat)
    requires c.Ok()
    requires a in Window(Sims(c.docs, sim, text), topN)
    requires pb < |PersonRanking(c, sim, text, person, topN)|
    requires var b := PersonRanking(c, sim, text, person, topN)[pb].0;
      Sims(c.docs, sim, text)[a] == Sims(c.docs, sim, text)[b] && RoleHit(c.table.rows[a], person) && !RoleHit(c.table.rows[b], person)
    ensures exists pa :: 0 <= pa < pb && PersonRanking(c, sim, text, person, topN)[pa].0 == a
  {
    var qs := Sims(c.docs, sim, text);
    var boost := PersonBoost(c.table.rows, person);
    var r := PersonRanking(c, sim, text, person, topN);
    assert r[pb] in r;
    BoostedOutranks(qs, boost, topN, a, pb);
  }

  // ---- general branch ----

  const GenreWords: seq<string> := ["action", "comedy", "drama", "thriller", "romance", "sci-fi", "science fiction",
                                    "fantasy", "horror", "animation", "adventure", "crime", "mystery", "superhero"]

  /** The Genre field as the genre mask reads it. */
  function GenreText(r: Row): (t: string)
    ensures "Genre" !in r ==> t == ""
    ensures "Genre" in r && r["Genre"].NA? ==> t == "nan"
    ensures "Genre" in r && r["Genre"].Str? ==> t == Lower(r["Genre"].s)
  {
    Lower(AsStr(Get(r, "Genre", Str(""))))
  }

  /** A genre word counts for a film when it is a whole word of the query
      and a substring of the film's genres. */
  predicate GenreHit(low: string, genre: string, g: string) {
    HasWholeWord(low, g) && Contains(genre, g)
  }

  /** How many of `words` satisfy `p`, taking them in order. */
  function CountWhere(words: seq<string>, p: string -> bool): (n: nat)
    ensures n <= |words|
  {
    if words == [] then 0
    else CountWhere(words[..|words| - 1], p) + (if p(words[|words| - 1]) then 1 else 0)
  }

  /** Counting the words of a list without repeats counts the distinct words. */
  lemma {:induction false} CountWhereIsSetSize(words: seq<string>, p: string -> bool)
    requires Distinct(words)
    ensures CountWhere(words, p) == |set g | g in words && p(g)|
  {
    if words != [] {
      var init := words[..|words| - 1];
      var last := words[|words| - 1];
      assert Distinct(init);
      CountWhereIsSetSize(init, p);
      assert last !in init;
      assert words == init + [last];
      SetOfSnoc(init, last, p);
    }
  }

  lemma SetOfSnoc(init: seq<string>, last: string, p: string -> bool)
    requires last !in init
    ensures var before := set g | g in init && p(g);
      |set g | g in init + [last] && p(g)| == |before| + (if p(last) then 1 else 0)
  {
    var before := set g | g in init && p(g);
    var after := set g | g in init + [last] && p(g);
    if p(last) {
      assert after == before + {last};
    } else {
      assert after == before;
    }
  }

  /** How many of `words` count for a film, taking them in order. */
  function GenreHits(low: string, genre: string, words: seq<string>): (n: nat)
    ensures n <= |words|
  {
    if words == [] then 0
    else GenreHits(low, genre, words[..|words| - 1]) + (if GenreHit(low, genre, words[|words| - 1]) then 1 else 0)
  }

  lemma {:induction false} GenreHitsIsCountWhere(low: string, genre: string, words: seq<string>)
    ensures GenreHits(low, genre, words) == CountWhere(words, g => GenreHit(low, genre, g))
  {
    if words != [] {
      GenreHitsIsCountWhere(low, genre, words[..|words| - 1]);
    }
  }

  /** The film a "like <title>" or "similar to <title>" query names: there
      is one exactly when the pattern matches and its stripped group
      fuzzy-matches some title at cutoff 75, and it is the earliest title
      that scores highest. */
  function LikeReference(titlesLower: seq<string>, scorer: Scorer, low: string): (r: Option<nat>)
    ensures r.Some? ==> r.value < |titlesLower|
    ensures var m := FirstGroup(low, LikePat, 2);
      r.Some? <==> m.Some? && exists i :: 0 <= i < |titlesLower| && scorer(Strip(Lower(Strip(m.value))), titlesLower[i]) >= LikeCutoff
    ensures r.Some? && FirstGroup(low, LikePat, 2).Some? ==>
              var q := Strip(Lower(Strip(FirstGroup(low, LikePat, 2).value)));
              && scorer(q, titlesLower[r.value]) >= LikeCutoff
              && (forall i :: 0 <= i < |titlesLower| ==> scorer(q, titlesLower[i]) <= scorer(q, titlesLower[r.value]))
              && (forall i :: 0 <= i < r.value ==> scorer(q, titlesLower[i]) < scorer(q, titlesLower[r.value]))
  {
    var m := FirstGroup(low, LikePat, 2);
    if m.None? then None else FuzzyTitleIndex(Strip(m.value), titlesLower, scorer, LikeCutoff)
  }

  /** What the genre loop adds up for one film: 0.07 per listed word that counts. */
  function GenreBoost(low: string, r: Row): (b: real)
    ensures 0.0 <= b <= GenreBoostValue * |GenreWords| as real
  {
    GenreBoostValue * GenreHits(low, GenreText(r), GenreWords) as real
  }

  /** The bonus of film `i` in the general search, given the film `ref`
      the query asks to be like, if any. */
  function GeneralBoost(c: Catalogue, sim: Similarity, low: string, ref: Option<nat>, i: nat): real
    requires c.Ok() && i < |c.table.rows| && (ref.Some? ==> ref.value < |c.docs|)
  {
    var genre := GenreBoost(low, c.table.rows[i]);
    if ref.Some? then genre + LikeBoostWeight * sim(c.docs[ref.value], c.docs[i]) else genre
  }

  /** The bonus of every film, given the film the query is like, if any. */
  function BoostsFor(c: Catalogue, sim: Similarity, low: string, ref: Option<nat>): (r: seq<real>)
    requires c.Ok() && (ref.Some? ==> ref.value < |c.docs|)
    ensures |r| == |c.table.rows|
  {
    seq(|c.table.rows|, i requires 0 <= i < |c.table.rows| => GeneralBoost(c, sim, low, ref, i))
  }

  /** `boosts` after the genre loop and the "like" step. */
  function GeneralBoosts(c: Catalogue, sim: Similarity, scorer: Scorer, low: string): (r: seq<real>)
    requires c.Ok()
    ensures |r| == |c.table.rows|
  {
    BoostsFor(c, sim, low, LikeReference(c.titlesLower, scorer, low))
  }

  /** No genre word is listed twice. */
  lemma GenreWordsDistinct()
    ensures Distinct(GenreWords)
  {
  }

  /** The genre count of a film is the number of distinct listed words that count for it. */
  lemma GenreHitsCount(low: string, genre: string)
    ensures GenreHits(low, genre, GenreWords) == |set g | g in GenreWords && GenreHit(low, genre, g)|
  {
    var p := g => GenreHit(low, genre, g);
    GenreHitsIsCountWhere(low, genre, GenreWords);
    GenreWordsDistinct();
    CountWhereIsSetSize(GenreWords, p);
    assert (set g | g in GenreWords && p(g)) == (set g | g in GenreWords && GenreHit(low, genre, g));
  }

  /** A film's general bonus is 0.07 for each distinct listed genre word
      that is a whole word of the query and occurs in its genres, plus,
      when the query names a film it is "like", 0.1 times its similarity
      to that film. */
  lemma GeneralBoostValue(c: Catalogue, sim: Similarity, scorer: Scorer, low: string, i: nat)
    requires c.Ok() && i < |c.table.rows|
    ensures var hits := |set g | g in GenreWords && GenreHit(low, GenreText(c.table.rows[i]), g)|;
      var ref := LikeReference(c.titlesLower, scorer, low);
      && (ref.None? ==> GeneralBoosts(c, sim, scorer, low)[i] == GenreBoostValue * hits as real)
      && (ref.Some? ==> GeneralBoosts(c, sim, scorer, low)[i] == GenreBoostValue * hits as real + LikeBoostWeight * sim(c.docs[ref.value], c.docs[i]))
  {
    GenreHitsCount(low, GenreText(c.table.rows[i]));
  }

  /** The re-ranking of the general search. */
  function GeneralRanking(c: Catalogue, sim: Similarity, scorer: Scorer, text: string, topN: int): (r: seq<Scored>)
    requires c.Ok()
    ensures forall k :: 0 <= k < |r| ==> r[k].0 < |c.table.rows|
  {
    BoostedTop(Sims(c.docs, sim, text), GeneralBoosts(c, sim, scorer, Lower(text)), topN)
  }

  /** Every film the general search returns comes from the top `3 * top_n`
      by raw similarity and scores its raw similarity plus its bonus; the
      scores do not increase and there are `min(top_n, n)` of them. */
  lemma GeneralRankingFacts(c: Catalogue, sim: Similarity, scorer: Scorer, text: string, topN: int)
    requires c.Ok()
    ensures var qs := Sims(c.docs, sim, text);
      var r := GeneralRanking(c, sim, scorer, text, topN);
      && SortedDesc(r)
      && (topN >= 0 ==> |r| == Min(topN, |c.table.rows|))
      && (forall y :: y in r ==> y.0 in Window(qs, topN))
      && (forall y :: y in r ==> y.1 == qs[y.0] + GeneralBoosts(c, sim, scorer, Lower(text))[y.0])
  {
  }
}
