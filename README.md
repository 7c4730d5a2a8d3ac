# Semantic movie recommender: query routing and ranking

This project models `SemanticMovieRecommender`, the core of the movie recommender's backend, in Dafny, and proves properties of the model.

The recommender holds a catalogue table. For every film it builds a search text, and the model embeds that text. `recommend(query, top_n, fuzzy_title_cutoff)` routes the query to exactly one of four strategies, tried in a fixed order:

1. **Collection.** A query such as "star wars collection" returns the catalogue rows whose title contains the phrase. When the catalogue has a "Year" column the rows are sorted by year, with missing years last. At most `top_n` rows are returned.
2. **Title.** The query fuzzy-matches a title at or above the cutoff. The result is the films most similar to that film, with the film's own similarity overwritten by -1.0.
3. **Person.** One of three person patterns extracts a name. The top `3 * top_n` films by similarity are re-ranked, and a film gets +0.25 when its Director or Cast matches the name.
4. **General.** The same over-fetch window is re-ranked with two bonuses:
   - +0.07 for each listed genre word that is a whole word of the query and occurs in the film's genres;
   - 0.1 times the similarity to a reference film, when a "like <title>" query fuzzy-matches a title at cutoff 75.

The model is organised in modules:

- **Text, Frame, Numeric:** the string operations, the table, and `pd.to_numeric`.
- **Ranking, Results:** slicing, stable sorting, `argsort`, re-ranking, and the result records.
- **Patterns:** a backtracking engine for the regular expressions `recommend` uses. Group extraction follows `re.search` semantics: the earliest start, then the first choice in the backtracking order (greedy or lazy).
- **Fuzzy:** `process.extractOne`, with the scorer given as a parameter.
- **SearchDoc:** `_row_to_search_text`.
- **CollectionSearch:** the collection branch.
- **Strategies:** the three scored strategies.
- **Router:** the intent cascade, and what each branch answers.
- **Recommender:** the `SemanticMovieRecommender` class. Its methods follow the source's array updates (`sims[idx] = -1.0`, `boosts += …`) and its `_rows_from_idxs` loop. Each method is proved equal to the pure definitions above.

The embedding model enters only through a parameter `sim: (string, string) -> real`. It stands for the cosine similarity of the embeddings of two texts. `fuzz.WRatio` likewise enters as a parameter `scorer`.

## Model

| member | source | states |
|---|---|---|
| Frame.Nz | backend/recommender.py:9-10 | a missing value becomes "", any other value its text |
| Frame.AsStr | backend/recommender.py:43 | `astype(str)` turns a missing value into "nan" and any other value into its text |
| Text.LowerChar | backend/recommender.py:100 | each ASCII capital maps to its own small letter (shifted by `'a' - 'A'`), every other character is unchanged |
| Text.Lower | backend/recommender.py:100 | `str.lower()` keeps the length and lower-cases each character on its own |
| Text.LowerCharIdempotent | backend/recommender.py:100 | lower-casing a character twice is the same as lower-casing it once |
| Text.LowerIdempotent | backend/recommender.py:100 | lower-casing twice is the same as lower-casing once |
| Text.Strip | backend/recommender.py:99 | the result is a slice of the input, only white space (Python's `isspace` set) is removed around it, and it neither starts nor ends with white space |
| Text.StripBeforeSolid | backend/recommender.py:57-67 | stripping `t + r`, where `r` starts and ends with a non-space, trims only the left of `t` |
| Text.StripNoSpace | backend/recommender.py:44 | stripping a string with no white space at either end leaves it unchanged |
| Text.RunCovers | backend/recommender.py:104-105 | a span is all of one class exactly when it fits inside the maximal run from its start |
| Numeric.ToNumeric | backend/recommender.py:114-115 | a missing cell coerces to NaN |
| Numeric.ParseUnsigned | backend/recommender.py:114-115 | an unsigned decimal is never negative, and a non-empty run of digits has its decimal value |
| Numeric.ParseNumber | backend/recommender.py:114-115 | only non-empty text parses; plain digits have their value, a minus sign and digits the negative value; a number with a minus sign is at most 0 and one without is at least 0 |
| Numeric.ShowNatParses | backend/recommender.py:114-115 | a year written in decimal digits coerces to its value |
| Numeric.NegativeShowNatParses | backend/recommender.py:114-115 | a minus sign followed by decimal digits coerces to the negative value |
| Numeric.NoDigitIsNaN | backend/recommender.py:114-115 | every text without a single digit (such as "unknown", "" or ".") coerces to NaN |
| Ranking.Take | backend/recommender.py:130 | Python's `s[:k]` is a prefix, of length `min(k, n)` for `k >= 0` and `max(n + k, 0)` for negative `k` |
| Ranking.SortDesc | backend/recommender.py:151-152 | the sort is non-increasing by score and a permutation of its input |
| Ranking.ArgsortDesc | backend/recommender.py:130 | `argsort(-sims)` lists every index exactly once, in order of non-increasing similarity |
| Ranking.ArgsortFacts | backend/recommender.py:130 | the indices of the stable descending sort of `(i, sims[i])` form such an order |
| Ranking.Candidates | backend/recommender.py:151-152 | the candidate list pairs each window index with its similarity plus its boost, in window order |
| Ranking.Rerank | backend/recommender.py:151-152 | the re-ranking is non-increasing, its members are candidates, and it has `min(top_n, n)` of them |
| Ranking.RerankKeepsTheBest | backend/recommender.py:151-152 | a candidate left out scores no higher than anything kept |
| Ranking.RerankOutranks | backend/recommender.py:151-152 | a candidate that outscores the pair at position `pb` is kept, at an earlier position |
| Ranking.TakeOfArgsortIsTop | backend/recommender.py:130 | every index among the top `k` scores at least as high as any index left out |
| Results.Project | backend/recommender.py:192-201 | a result record carries the score; Title, Director, Cast, Genre, Poster and Plot are each the row's value, or missing when the key is absent; the year is the "Year" value when that key exists and otherwise "Year Binned" or missing |
| Results.ProjectAll | backend/recommender.py:186-202 | `zip(idxs, scores)` yields `min(len(idxs), len(scores))` records, the k-th for `idxs[k]` with score `scores[k]` |
| Results.Gather | backend/recommender.py:131 | `v[idxs]` (and the rows `df[mask]` selects, line 110) has one entry per index, `v[idxs[k]]` at position k |
| Patterns.WalkSound | backend/recommender.py:104-105 | what the backtracking search returns is a match path of the pattern |
| Patterns.WalkComplete | backend/recommender.py:104-105 | the backtracking search finds a match whenever one exists |
| Patterns.WalkMatches | backend/recommender.py:104-105 | the search succeeds at a start exactly when the pattern matches there |
| Patterns.WalkChoice | backend/recommender.py:104-105 | at every node, the match found makes the first choice (in backtracking order) that lets the rest match |
| Patterns.WordEnd | backend/recommender.py:136 | an alternation takes the first listed word that occurs and lets the rest match, or fails when none does |
| Patterns.RepeatEnd | backend/recommender.py:104-105 | a greedy repeat takes the longest run that lets the rest match, and a lazy repeat the shortest |
| Patterns.GroupAt | backend/recommender.py:104-105 | the pattern yields a group at a start exactly when it matches there; the group is the span of its node in the match path found |
| Patterns.FirstStart | backend/recommender.py:104-105 | the search over starts returns the earliest start that matches |
| Patterns.FirstGroup | backend/recommender.py:104-105 | `re.search(...).group(1)` exists exactly when the pattern matches at some start, and is the group of the earliest matching start |
| Patterns.GreedyGroup | backend/recommender.py:136 | a greedy group is at least its minimum length, is all of its class, lets the rest match, and no longer run of its class would |
| Patterns.LazyGroup | backend/recommender.py:105 | no shorter run of a lazy group's class lets the rest match |
| Patterns.MatchesAtEnd | backend/recommender.py:104-105 | the empty rest of a pattern matches anywhere |
| Patterns.CollectionTail | backend/recommender.py:105 | the collection pattern's rest matches exactly at white space, then a collection word, then a word boundary |
| Patterns.CollectionGroup | backend/recommender.py:104-105 | the phrase starts at the match start, is non-empty and free of newlines, is followed by such a tail, and no shorter phrase is |
| Patterns.WithGroup | backend/recommender.py:135-136 | the name after "movies/films with/featuring" is a non-empty run of `[a-z .'-]` that ends the string or is followed by another character |
| Patterns.NameMoviesTail | backend/recommender.py:138 | the rest of the "<name> movies" pattern matches exactly at white space, "movies" or "films", then the rest of the line |
| Patterns.NameMoviesGroup | backend/recommender.py:138 | the name starts at the match start, is a non-empty run of `[a-z .'-]`, and no longer such run is followed by a matching tail |
| Patterns.ByTail | backend/recommender.py:141 | the rest of the "by <name>" pattern matches exactly where a newline-free rest of the line ends the string |
| Patterns.ByGroup | backend/recommender.py:140-141 | the name after "directed by" or "by" is the longest run of `[a-z .'-]` that the rest of the line can follow |
| Patterns.LikeTail | backend/recommender.py:171 | the end anchor matches exactly at the end or before a final newline |
| Patterns.LikeGroup | backend/recommender.py:171 | the title after "like" or "similar to" is non-empty, newline-free, reaches the end anchor, and is the longest such span |
| Patterns.HasWholeWord | backend/recommender.py:165 | `\bword\b` is found exactly when the word occurs with a word boundary on both sides |
| Fuzzy.BestOf | backend/recommender.py:71-72 | among the first `k` choices, the earliest highest-scoring one at or above the cutoff, or none when no choice reaches it |
| Fuzzy.ExtractOne | backend/recommender.py:71-72 | there is a result exactly when some choice reaches the cutoff; it scores highest of all, and no earlier choice scores as high |
| Fuzzy.FuzzyTitleIndex | backend/recommender.py:70-76 | the query is lower-cased and stripped; an index is returned exactly when some title reaches the cutoff; it is in range, its title scores highest of all, and no earlier title scores as high |
| SearchDoc.SearchText | backend/recommender.py:47-67 | defined as the stripped f-string of the seven `_nz`-normalised fields; its layout is stated by the two lemmas below |
| SearchDoc.SearchTextIsTrimmedTitleThenRest | backend/recommender.py:57-67 | the stripped search text is the left-trimmed title followed by the rest of the f-string unchanged |
| SearchDoc.LayoutOf | backend/recommender.py:57-66 | the text ends with the title, starts with the title and the director and cast parts, and contains the keyword, plot and year parts |
| SearchDoc.SearchTextLayout | backend/recommender.py:47-67 | every row's search text has that layout for the row's fields |
| SearchDoc.MissingIsEmpty | backend/recommender.py:48-54 | a missing value in any column gives the same text as an empty string there |
| SearchDoc.YearFallback | backend/recommender.py:54 | "Year" is read whenever the column exists, "Year Binned" only when it does not, and "" when neither exists |
| CollectionSearch.TitleHas | backend/recommender.py:108 | defined as: the row's title, lower-cased, contains the phrase literally (`re.escape`); a missing title does not match |
| CollectionSearch.MatchingIdx | backend/recommender.py:108 | the mask's positions are increasing, in range, all matching, and every matching row is among them |
| CollectionSearch.YearKey | backend/recommender.py:114-115 | defined as the "Year" value through `pd.to_numeric(errors="coerce")`, NaN when the field is missing; YearKeyOfYear states its values |
| CollectionSearch.YearKeyOfYear | backend/recommender.py:114-115 | a film whose "Year" is written in digits is keyed by that year, and one with no "Year" or a NaN there is keyed NaN |
| CollectionSearch.KeyBefore | backend/recommender.py:116-117 | defined as ascending order of the year keys with NaN last (`na_position="last"`); KeyBeforeOrder states its properties |
| CollectionSearch.KeyBeforeOrder | backend/recommender.py:116-117 | the key order is reflexive, total and transitive, everything may precede NaN, and NaN precedes only NaN |
| CollectionSearch.YearKeys | backend/recommender.py:114-115 | the `__yr` column holds one key per subset row, the year key of that row |
| CollectionSearch.SortPos | backend/recommender.py:116-117 | the insertion sort of positions is ordered by year key, NaN last, and is a permutation of the positions |
| CollectionSearch.YearOrder | backend/recommender.py:114-117 | `sort_values("__yr")` lists each row position once, in ascending year with NaN years last |
| CollectionSearch.OrderedMatches | backend/recommender.py:110-117 | defined as the masked rows, reordered by `YearOrder` when there is a "Year" column; OrderedMatchesFacts states what it holds |
| CollectionSearch.CollectionRecords | backend/recommender.py:120 | defined as `head(top_n)` of the ordered matches; CollectionRecordsBounds states what it holds |
| CollectionSearch.MaskedRows | backend/recommender.py:108-110 | the masked subset holds exactly the catalogue rows whose lower-cased title contains the phrase |
| CollectionSearch.YearSortFacts | backend/recommender.py:112-117 | sorting by year keeps every row and no other, and orders them by year with NaN last |
| CollectionSearch.OrderedMatchesFacts | backend/recommender.py:108-117 | the ordered subset holds exactly the matching rows, sorted by year when there is a "Year" column and in catalogue order otherwise |
| CollectionSearch.HeadFacts | backend/recommender.py:120 | `head(top_n)` is a prefix of `min(top_n, n)` rows for `top_n >= 0`: it adds nothing, keeps everything when there are at most `top_n`, keeps the year order, and no row it drops has an earlier year than one it keeps |
| CollectionSearch.CollectionRecordsBounds | backend/recommender.py:106-120 | the collection records are the first `min(top_n, #matches)` of the ordered matches: every one matches the phrase, all matches are there when at most `top_n` match, and with a "Year" column they are year-ordered and no dropped match has an earlier year than a kept one |
| Strategies.Sims | backend/recommender.py:88-92 | the query's similarity to film j is `sim(text, docs[j])` |
| Strategies.TitleSims | backend/recommender.py:127-129 | the title branch's scores are each film's similarity to the named film, with the named film's own set to -1.0 |
| Strategies.TitleRanking | backend/recommender.py:130 | the title ranking lists catalogue indices |
| Strategies.TitleRankingFacts | backend/recommender.py:127-131 | the title branch returns `min(top_n, n)` distinct films in order of non-increasing similarity to the named film |
| Strategies.TitleResult | backend/recommender.py:131 | one record per ranked film, in rank order, each scored with its similarity to the named film |
| Strategies.TitleExcludesItself | backend/recommender.py:129-130 | if the named film is returned, so is every other film more similar than -1.0 |
| Strategies.TitleAbsentWhenOthersFill | backend/recommender.py:129-130 | the named film is not returned when at least `top_n` other films are more similar than -1.0 |
| Strategies.Window | backend/recommender.py:148 | the over-fetch window `argsort(-sims)[:top_n*3]` holds catalogue indices |
| Strategies.BoostedTop | backend/recommender.py:148-152 | the re-ranking is non-increasing, has `min(top_n, n)` entries, each from the window and scored as its similarity plus its boost |
| Strategies.BoostedOutranks | backend/recommender.py:151-152 | a window film whose boosted score beats the one at position `pb` is returned before it |
| Strategies.RankedRows | backend/recommender.py:153-155 | one result record per re-ranked pair, in order, with its boosted score |
| Strategies.DotMatchAt | backend/recommender.py:82-84 | defined as: the name fits the field at the position, each `.` of the name matching any character but a newline and every other character itself; DotContainsLiteral relates it to literal occurrence |
| Strategies.DotContains | backend/recommender.py:82-84 | defined as: the name, read as a regular expression, matches at some position of the field; DotContainsLiteral relates it to literal containment |
| Strategies.DotContainsLiteral | backend/recommender.py:82-84 | the unescaped name finds every literal occurrence, and exactly those when the name has no `.` |
| Strategies.RoleText | backend/recommender.py:81-84 | defined as the Director or Cast field through `astype(str)` and lower-cased, "" when the column is missing |
| Strategies.RoleHit | backend/recommender.py:79-85 | defined as the union of the Director and Cast masks for one row: the stripped, lower-cased name found by `str.contains` in either field |
| Strategies.PersonBoost | backend/recommender.py:149-150 | a film's person boost is 0.25 when Director or Cast matches the name and 0 otherwise |
| Strategies.PersonRanking | backend/recommender.py:147-152 | the person ranking lists catalogue indices |
| Strategies.PersonRankingFacts | backend/recommender.py:142-155 | a person query returns `min(top_n, n)` non-increasing scores from the window, each film scored its similarity plus 0.25 exactly when Director or Cast matches |
| Strategies.PersonMatchOutranks | backend/recommender.py:149-152 | of two equally similar window films, one whose Director or Cast matches is returned before a returned one whose do not |
| Strategies.GenreWordsDistinct | backend/recommender.py:163-164 | no genre word is listed twice |
| Strategies.GenreText | backend/recommender.py:166-167 | the genre mask reads "" when the Genre column is missing, "nan" for a missing genre, and otherwise the lower-cased genre text |
| Strategies.GenreHit | backend/recommender.py:165-167 | defined as: the word is a whole word of the query (`\bword\b`) and a substring of the film's lower-cased genres; GenreHitsCount counts these |
| Strategies.GenreHits | backend/recommender.py:163-168 | the genre loop counts at most one hit per listed word; GenreHitsIsCountWhere and GenreHitsCount state what it counts |
| Strategies.GenreHitsIsCountWhere | backend/recommender.py:163-168 | the genre count is the number of listed words that count for the film, taken in list order |
| Strategies.GenreBoost | backend/recommender.py:162-168 | a film's genre boost (0.07 per counting word) is between 0 and 0.07 times the number of listed words |
| Strategies.GeneralBoost | backend/recommender.py:162-178 | defined as the genre boost plus, when the query names a reference film, 0.1 times the similarity to it; GeneralBoostValue states the value in terms of the counted words |
| Strategies.GenreHitsCount | backend/recommender.py:163-168 | the genre loop counts the distinct listed words that are whole words of the query and occur in the film's genres |
| Strategies.LikeReference | backend/recommender.py:171-175 | there is a reference film exactly when the "like" pattern matches and its stripped group, lower-cased and stripped, scores at least 75 against some title; the film is in range, scores highest of all titles, and no earlier title scores as high |
| Strategies.BoostsFor | backend/recommender.py:162-178 | there is one boost per film |
| Strategies.GeneralBoosts | backend/recommender.py:162-178 | there is one general boost per film |
| Strategies.GeneralBoostValue | backend/recommender.py:162-178 | a film's bonus is 0.07 per counting genre word, plus 0.1 times its similarity to the reference film when the query names one |
| Strategies.GeneralRanking | backend/recommender.py:158-181 | the general ranking lists catalogue indices |
| Strategies.GeneralRankingFacts | backend/recommender.py:158-184 | the general search returns `min(top_n, n)` non-increasing scores from the window, each film scored its similarity plus its bonus |
| Router.CollectionQuery | backend/recommender.py:104-107 | there is a phrase exactly when the collection pattern matches, and it is the stripped group of the earliest match |
| Router.PersonName | backend/recommender.py:135-143 | there is a name exactly when one of the three person patterns matches |
| Router.PersonNameFromWith | backend/recommender.py:135-136 | when the first person pattern matches, the name is its stripped group from the earliest match |
| Router.PersonNameFromNameMovies | backend/recommender.py:137-138 | when only the second person pattern matches, the name is its stripped group from the earliest match |
| Router.PersonNameFromBy | backend/recommender.py:139-141 | when only the third person pattern matches, the name is its stripped group from the earliest match |
| Router.Recommendations | backend/recommender.py:95-184 | `recommend`, with `top_n` defaulting to 10 and `fuzzy_title_cutoff` to 85, returns catalogue records exactly when the query is routed to the collection branch and result rows otherwise |
| Router.MaskNotEmpty | backend/recommender.py:108-109 | `mask.sum() > 0` exactly when some title contains the phrase |
| Router.Route | backend/recommender.py:99-158 | each query reaches exactly one strategy: collection when the pattern matches and some title holds the phrase, else title on a fuzzy hit, else person when a person pattern matches, else general |
| Router.RouteCollectionPhrase | backend/recommender.py:104-109 | a collection route's phrase is the stripped group of the earliest match, and some title holds it |
| Router.RouteTitleIsBest | backend/recommender.py:124-125 | a title route's film reaches the cutoff, scores highest of all titles, and no earlier title scores as high |
| Router.CollectionAnswer | backend/recommender.py:106-120 | a collection route returns the first `min(top_n, #matches)` of the matching rows in the subset order: all matches when there are at most `top_n`, and with a "Year" column year-ordered (NaN last) with no dropped match earlier than a kept one |
| Router.TitleAnswer | backend/recommender.py:124-131 | a title route returns `min(top_n, n)` records of the title ranking, scored with their similarity to the named film, non-increasing |
| Router.PersonAnswer | backend/recommender.py:142-155 | a person route returns `min(top_n, n)` records of the person re-ranking with their boosted scores, non-increasing |
| Router.GeneralAnswer | backend/recommender.py:157-184 | the general route returns `min(top_n, n)` records of the general re-ranking with their boosted scores, non-increasing |
| Recommender.WithSearchText | backend/recommender.py:26-27 | a row gains the "_search_text" key holding its search text, and every other key keeps its value |
| Recommender.TitleKey | backend/recommender.py:43-44 | defined as the title through `astype(str)`, lower-cased and stripped; TitleKeyNormalised states that it is normalised |
| Recommender.StripLowerNormalised | backend/recommender.py:44 | a lower-cased, stripped string has nothing left to lower-case or strip |
| Recommender.TitleKeyNormalised | backend/recommender.py:43-44 | every entry of `titles_lower` is already lower-case and stripped |
| Recommender.BoostsPointwise | backend/recommender.py:162-178 | boosts that match the genre boosts (plus the "like" term when there is a reference film) at every film are the general boosts |
| Recommender.SemanticMovieRecommender.AsCatalogue | backend/recommender.py:16-44 | a valid recommender gives a consistent catalogue |
| Recommender.SemanticMovieRecommender.constructor | backend/recommender.py:14-44 | the table gains "_search_text", and there is one search text, title and lower-cased stripped title per row, in row order |
| Recommender.SemanticMovieRecommender.Create | backend/recommender.py:16-18 | construction fails exactly when the table has no "Title" column |
| Recommender.SemanticMovieRecommender.NeighbourSims | backend/recommender.py:127-129 | the array holds the title branch's scores |
| Recommender.SemanticMovieRecommender.GenreHitsStep | backend/recommender.py:165-168 | one more genre word adds one to the count exactly when it counts |
| Recommender.SemanticMovieRecommender.AddGenreWord | backend/recommender.py:166-168 | every film whose genres contain the word gains 0.07, and no other boost changes |
| Recommender.SemanticMovieRecommender.GenreBoostArray | backend/recommender.py:162-168 | after the genre loop, each film's boost is 0.07 times the number of words that count for it |
| Recommender.SemanticMovieRecommender.AddLikeBoost | backend/recommender.py:176-178 | each film's boost gains 0.1 times its similarity to the reference film |
| Recommender.SemanticMovieRecommender.BoostArray | backend/recommender.py:162-178 | the boost array equals the general boosts for the given reference film |
| Recommender.SemanticMovieRecommender.GeneralBoostArray | backend/recommender.py:162-178 | the boost array equals the general boosts of the query |
| Recommender.SemanticMovieRecommender.RowsFromIdxs | backend/recommender.py:186-202 | the loop builds one projected record per pair of `zip(idxs, scores)` |
| Recommender.SemanticMovieRecommender.TitleBranch | backend/recommender.py:127-131 | the title branch returns the records of the title ranking |
| Recommender.SemanticMovieRecommender.PersonBranch | backend/recommender.py:147-155 | the person branch returns the records of the person re-ranking |
| Recommender.SemanticMovieRecommender.GeneralBranch | backend/recommender.py:158-184 | the general branch returns the records of the general re-ranking |
| Recommender.SemanticMovieRecommender.Recommend | backend/recommender.py:95-184 | `recommend`, with the same defaults, returns what the routed strategy answers (see the Router lemmas) |

## Left out

**External components modelled as parameters**
- The sentence-embedding model, the device choice, batching and `util.cos_sim` are left out. They become the `sim` parameter, a function of two texts. So the model assumes that equal texts get equal embeddings.
- `fuzzy_title_index`'s own default cutoff of 80 is not modelled: every caller passes a cutoff.
- `fuzz.WRatio` is not modelled. It becomes the `scorer` parameter; only the way `extractOne` picks the best choice is modelled. `extractOne` also returns the matched title and the score, but no caller reads them, so they are left out.
- Real numbers stand in for float32 similarities and float64 scores. Rounding is not modelled.

**Text handling**
- Lower-casing covers ASCII letters only. `\w` (used by `\b`) is ASCII letters, digits and underscore. Python's Unicode case mapping and Unicode word characters are not modelled. White space is Python's full `isspace` set.

**Ordering and numbers**
- `np.argsort` and `sort_values`: NumPy's and pandas' default sorts do not fix the order of equal keys. The model sorts stably in index order. Every ordering lemma states only sortedness and a permutation, so it holds for any tie order. `sorted` in the re-ranking is stable in Python too, and is modelled exactly.
- `pd.to_numeric(errors="coerce")` is modelled for plain decimal numbers with an optional sign. Other text becomes NaN. Exponents, "inf", thousands separators and surrounding white space are not modelled.

**The collection branch**
- `CollectionSearch.TitleHas`: the mask reads `df["Title"].str.lower()`. The model treats a missing title as not matching, and a non-string title (a cell is held as its text) as its text. In pandas both give NaN in the mask, and boolean indexing with NaN raises an error, which the model does not capture.
- The `except` fallback `sort_values("Title")` is not modelled. With `errors="coerce"` and a numeric key, neither call in the `try` block raises, so the fallback is unreachable.
- The helper column "__yr" is added and dropped again, so the records carry no trace of it and it is not modelled.

**The person and like branches**
- The person mask uses `str.contains(p)`, which reads the name as a regular expression. The name comes from the class `[a-z .'-]`, so `.` is its only metacharacter, and it is modelled as a wildcard (`Strategies.DotContains`). The Director/Cast test therefore follows the code, not a plain substring test.
- Some patterns have a second group, `(.*)$`. The `rest` it yields is computed by the person branch but never used, so it is not modelled.
- `re.escape(g)` in the genre test is not modelled as a separate step. None of the listed genre words contains a metacharacter, so the test is a literal whole-word search.

**Weaker contracts**
- Strategies.TitleAbsentWhenOthersFill: this states the self-exclusion only under its hypothesis. The named film can still be returned when fewer than `top_n` other films score above -1.0, because -1.0 is the lowest cosine similarity.
- Strategies.TitleRanking, Strategies.PersonRanking and Strategies.GeneralRanking: their own contracts state only that every index is in range. What they promise is stated by the `…Facts` lemmas about them.

**Outside this model**
- The rest of the repository is not part of this model: `backend/app.py` (the HTTP server and the dataset loading) and the frontend. The same goes for printing the device, the progress bar, and DataFrame copying and `reset_index`. The table is given in positional order.
