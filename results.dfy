/**
 * What `recommend` hands back: in the collection branch the catalogue's own
 * records, in every other branch the few fields `_rows_from_idxs` keeps from
 * each chosen row, with its score.
 */
module Results {
  import opened Wrappers
  import opened Frame
  import opened Ranking

  /** The dictionary `_rows_from_idxs` builds for one row; `None` is a key the row lacks. */
  datatype ResultRow = ResultRow(
    title: Option<Cell>,
    director: Option<Cell>,
    cast: Option<Cell>,
    genre: Option<Cell>,
    year: Option<Cell>,
    poster: Option<Cell>,
    plot: Option<Cell>,
    score: real)

  /** The list `recommend` returns. */
  datatype Recommendation =
    | Records(records: seq<Row>)
    | Ranked(rows: seq<ResultRow>)

  /** Field `f` of a record is the row's value under `key`, or missing
      when the row lacks the key (`dict.get(key)`). */
  predicate IsField(f: Option<Cell>, r: Row, key: string) {
    (key in r ==> f == Some(r[key])) && (key !in r ==> f.None?)
  }

  /** One row with its score, as `_rows_from_idxs` normalises it: the
      record carries the score; each field is the row's value under that key
      and missing when the row lacks the key; the year falls back to "Year
      Binned" only when the row has no "Year" key at all, so a missing value
      under "Year" stays missing. */
  function Project(r: Row, score: real): (p: ResultRow)
    ensures p.score == score
    ensures IsField(p.title, r, "Title") && IsField(p.director, r, "Director") && IsField(p.cast, r, "Cast")
    ensures IsField(p.genre, r, "Genre") && IsField(p.poster, r, "Poster") && IsField(p.plot, r, "Plot")
    ensures "Year" in r ==> p.year == Some(r["Year"])
    ensures "Year" !in r ==> IsField(p.year, r, "Year Binned")
  {
    ResultRow(
      Lookup(r, "Title"),
      Lookup(r, "Director"),
      Lookup(r, "Cast"),
      Lookup(r, "Genre"),
      if "Year" in r then Some(r["Year"]) else Lookup(r, "Year Binned"),
      Lookup(r, "Poster"),
      Lookup(r, "Plot"),
      score)
  }

  /** `zip(idxs, scores)`: as many records as the shorter of the two, in
      the order of `idxs`. */
  function ProjectAll(rows: seq<Row>, idxs: seq<nat>, scores: seq<real>): (r: seq<ResultRow>)
    requires forall k :: 0 <= k < |idxs| ==> idxs[k] < |rows|
    ensures |r| == Min(|idxs|, |scores|)
    ensures forall k :: 0 <= k < |r| ==> r[k] == Project(rows[idxs[k]], scores[k])
  {
    seq(Min(|idxs|, |scores|), k requires 0 <= k < Min(|idxs|, |scores|) => Project(rows[idxs[k]], scores[k]))
  }

  /** NumPy's fancy indexing `v[idxs]`. */
  function Gather<T>(v: seq<T>, idxs: seq<nat>): (r: seq<T>)
    requires forall k :: 0 <= k < |idxs| ==> idxs[k] < |v|
    ensures |r| == |idxs|
    ensures forall k :: 0 <= k < |r| ==> r[k] == v[idxs[k]]
  {
    seq(|idxs|, k requires 0 <= k < |idxs| => v[idxs[k]])
  }

  /** The scores of a ranking, `np.array([s for _, s in reranked])`. */
  function Seconds(s: seq<Scored>): (r: seq<real>)
    ensures |r| == |s|
    ensures forall k :: 0 <= k < |s| ==> r[k] == s[k].1
  {
    seq(|s|, k requires 0 <= k < |s| => s[k].1)
  }
}
