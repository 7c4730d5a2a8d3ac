/**
 * `_row_to_search_text`: the text that is embedded for each catalogue entry.
 * Title, plot and keywords are repeated so that they weigh more in the
 * embedding.
 */
module SearchDoc {
  import opened Text
  import opened Frame

  /** The fields the text is built from, each already normalised by `_nz`. */
  datatype Fields = Fields(
    title: string, director: string, cast: string, genre: string,
    keywords: string, plot: string, year: string)

  /** `Year` is read with `Year Binned` as its default, and that with "". */
  function YearCell(row: Row): Cell {
    Get(row, "Year", Get(row, "Year Binned", Str("")))
  }

  function FieldsOf(row: Row): Fields {
    Fields(
      Nz(Get(row, "Title", Str(""))), Nz(Get(row, "Director", Str(""))),
      Nz(Get(row, "Cast", Str(""))), Nz(Get(row, "Genre", Str(""))),
      Nz(Get(row, "Keywords", Str(""))), Nz(Get(row, "Plot", Str(""))),
      Nz(YearCell(row)))
  }

  /** The parts of the f-string, in order. */
  function DirectorCast(f: Fields): string { ". Director: " + f.director + ". Cast: " + f.cast + ". " }
  function GenresPart(f: Fields): string { "Genres: " + f.genre + ". " }
  function KeywordsPart(f: Fields): string { "Keywords: " + f.keywords + ". " + f.keywords + ". " }
  function PlotPart(f: Fields): string { "Plot: " + f.plot + ". " + f.plot + ". " }
  function YearPart(f: Fields): string { "Year: " + f.year + ". " }
  function TitleEnd(f: Fields): string { f.title + "." }

  /** Everything after the title at the front of the text. */
  function Rest(f: Fields): string {
    DirectorCast(f) + GenresPart(f) + KeywordsPart(f) + PlotPart(f) + YearPart(f) + TitleEnd(f)
  }

  /** The f-string before `.strip()`. */
  function Compose(f: Fields): string {
    f.title + Rest(f)
  }

  /** `_row_to_search_text`: the f-string of the row's fields, stripped. */
  function SearchText(row: Row): string {
    Strip(Compose(FieldsOf(row)))
  }

  /** Only leading white space of the title is stripped: the text is the
      trimmed title followed by the rest of the f-string. */
  lemma SearchTextIsTrimmedTitleThenRest(row: Row)
    ensures SearchText(row) == TrimLeft(FieldsOf(row).title) + Rest(FieldsOf(row))
  {
    var f := FieldsOf(row);
    var r := Rest(f);
    assert r[0] == '.' by {
      assert DirectorCast(f)[0] == '.';
    }
    assert r[|r| - 1] == '.' by {
      assert TitleEnd(f)[|TitleEnd(f)| - 1] == '.';
    }
    StripBeforeSolid(f.title, r);
  }

  /** Where each of seven consecutive parts sits in their concatenation. */
  lemma SevenParts(p0: string, p1: string, p2: string, p3: string, p4: string, p5: string, p6: string)
    ensures var t := p0 + (p1 + p2 + p3 + p4 + p5 + p6);
      && |t| >= |p6| && t[|t| - |p6|..] == p6
      && StartsAt(t, 0, p0 + p1)
      && Contains(t, p3) && Contains(t, p4) && Contains(t, p5)
  {
    var q3 := p1 + p2 + p3;
    var q4 := q3 + p4;
    var q5 := q4 + p5;
    var q6 := q5 + p6;
    ContainsEnd(p1 + p2, p3);
    ContainsInLeft(q3, p4, p3);
    ContainsEnd(q3, p4);
    ContainsInLeft(q4, p5, p3);
    ContainsInLeft(q4, p5, p4);
    ContainsEnd(q4, p5);
    ContainsInLeft(q5, p6, p3);
    ContainsInLeft(q5, p6, p4);
    ContainsInLeft(q5, p6, p5);
    ContainsInRight(p0, q6, p3);
    ContainsInRight(p0, q6, p4);
    ContainsInRight(p0, q6, p5);
    ContainsEnd(p0 + q5, p6);
    assert p0 + q6 == (p0 + q5) + p6;
    assert StartsAt(p1, 0, p1);
    StartsInLeft(p1, p2, p1);
    StartsInLeft(p1 + p2, p3, p1);
    StartsInLeft(q3, p4, p1);
    StartsInLeft(q4, p5, p1);
    StartsInLeft(q5, p6, p1);
    PrefixJoin(p0, q6, p1);
  }

  /** The text built from `f` ends with the title and starts with the
      left-trimmed title, then the director and the cast; it carries the
      keywords twice, the plot twice and the year. */
  lemma LayoutOf(f: Fields, t: string)
    requires t == TrimLeft(f.title) + Rest(f)
    ensures && |t| >= |TitleEnd(f)| && t[|t| - |TitleEnd(f)|..] == TitleEnd(f)
      && StartsAt(t, 0, TrimLeft(f.title) + DirectorCast(f))
      && Contains(t, KeywordsPart(f)) && Contains(t, PlotPart(f)) && Contains(t, YearPart(f))
  {
    SevenParts(TrimLeft(f.title), DirectorCast(f), GenresPart(f), KeywordsPart(f), PlotPart(f), YearPart(f), TitleEnd(f));
  }

  /** `_row_to_search_text` keeps that layout for the row's fields. */
  lemma SearchTextLayout(row: Row)
    ensures var f := FieldsOf(row); var t := SearchText(row);
      && |t| >= |TitleEnd(f)| && t[|t| - |TitleEnd(f)|..] == TitleEnd(f)
      && StartsAt(t, 0, TrimLeft(f.title) + DirectorCast(f))
      && Contains(t, KeywordsPart(f)) && Contains(t, PlotPart(f)) && Contains(t, YearPart(f))
  {
    SearchTextIsTrimmedTitleThenRest(row);
    LayoutOf(FieldsOf(row), SearchText(row));
  }

  /** A missing value in any column yields the same text as an empty string
      there: missing values never reach the text as anything but "". */
  lemma MissingIsEmpty(row: Row, key: string)
    ensures SearchText(row[key := NA]) == SearchText(row[key := Str("")])
  {
    assert FieldsOf(row[key := NA]) == FieldsOf(row[key := Str("")]);
  }

  /** `Year` wins whenever the column exists, even when its value is missing;
      `Year Binned` is read only when there is no `Year` column. */
  lemma YearFallback(row: Row)
    ensures "Year" in row ==> FieldsOf(row).year == Nz(row["Year"])
    ensures "Year" !in row && "Year Binned" in row ==> FieldsOf(row).year == Nz(row["Year Binned"])
    ensures "Year" !in row && "Year Binned" !in row ==> FieldsOf(row).year == ""
  {
  }
}
