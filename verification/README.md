# Movie recommendation core in Dafny

This project models the pure core of an item-based collaborative-filtering
movie recommender and proves properties of it. The core has three parts:

- **The data pipeline** (`filter_noise`, `build_pivot_table`, and the row index
  that `build_pipeline` returns).
  - The noise filter runs two fixed-order count-threshold passes over
    (userId, movieId, rating) rows.
  - The rows are then inner-joined with the movie catalogue on movieId.
  - The result is pivoted into a title x user matrix. Each cell is the mean of
    the ratings that fall on it, and a cell with no rating is 0.
- **The recommendation engine** (`get_recommendations`, `get_all_titles`).
  - It looks the queried title up in the row index and ranks that title's row
    of the similarity matrix by descending score.
  - It drops the first-ranked entry and returns the titles of the next `top_n`
    entries. An unknown title gets a message instead.
  - `get_all_titles` is a plain `sorted()` of the index.
- **The pure helpers of the web page**:
  - `split_title_year` cuts "Name (Year)" at its last '('.
  - The live search filter keeps the titles that contain the stripped,
    lower-cased query.
  - The match-count pill says "No matches", "1 match found" or
    "N matches found".

Files and modules:

| file | module | contents |
|---|---|---|
| `seqs.dfy` | `Seqs` | order-preserving filter, counting, subsequences, distinctness, Python slices |
| `sorting.dfy` | `Sorting` | sorting under a strict total order, with and without duplicates; uniqueness of a sorted permutation |
| `text.dfy` | `Text` | the parts of Python `str` in use: code-point order, `strip`, `rstrip(c)`, `lower`, `in`, `rfind`, `str(n)` |
| `interactions.dfy` | `InteractionFilter` | `filter_noise` and its thresholds |
| `rating_matrix.dfy` | `RatingMatrix` | the catalogue join, the pivot table with mean cells, and the pipeline's index |
| `ranking.dfy` | `Ranking` | `argsort(...)[::-1]`, the `[1 : top_n + 1]` slice, and the corrected query-first selection |
| `recommender.dfy` | `Recommender` | `get_recommendations` as written and corrected, and `get_all_titles` |
| `search_ui.dfy` | `SearchUi` | `split_title_year`, the search filter, and the match pill |

Modelling choices:

- Ratings and similarity scores are `real`, so means are exact.
- Pandas frames are sequences of records. A boolean-mask selection is `Filter`,
  which keeps order and multiplicity.
- `value_counts()` read at one key is `Count`.
- The pivot's labels are the sorted distinct titles and user ids, as
  `pivot_table` produces them.
- The similarity matrix is an input: any square `seq<seq<real>>` whose rows
  follow the index.
- The engine's state, which the code builds once at import time, is passed as
  explicit arguments (`index`, `sim`).
- `np.argsort` is modelled as a stable ascending sort, read backwards
  (`Ranking.DescendingOrder`). Every selection property is proved for *any*
  permutation that orders the scores descending (`Ranking.IsDescendingRanking`).
  It therefore holds whatever order numpy gives to ties.

Where the code and what its comments or a reader might expect differ, the
model follows the code:

- The comments next to the two thresholds (data_pipeline.py:13-14) speak of
  dropping movies and users rated *fewer* than 50 and 10 times. The code keeps
  counts strictly *greater* than the thresholds, so a movie with exactly 50
  rows is dropped. The model follows the code.
- The code has no explicit check for an empty catalogue. If the noise filter
  leaves no rows, the pivot is 0 x 0, and the similarity computation that runs
  at import time (recommender.py:27-30) rejects a matrix without samples, so
  the module never loads and no query is served. That failure happens inside
  the library call the model leaves out. The model's engine over an empty
  index answers every query with the not-found message instead.
- A stable sort would keep tied indices in index order. The code reverses an
  ascending argsort, so with a stable argsort tied indices come out in
  *descending* index order. `Ranking.DescendingOrder` models that reversal;
  the selection lemmas do not depend on it.
- Nothing in the code guarantees that the queried title is left out of its
  own recommendations; see Findings.

## Model

| member | source | states |
|---|---|---|
| `InteractionFilter.PopularMovieRows` | data_pipeline.py:36-38 | Step 1 only removes rows. It keeps every copy of a row whose movie has more than 50 rows in the input, and no other row. |
| `InteractionFilter.ActiveUserRows` | data_pipeline.py:41-43 | Step 2 only removes rows, keeping every copy of a row whose user has more than 10 rows. A kept user's count is the same before and after, because only whole users go. |
| `InteractionFilter.FilterNoise` | data_pipeline.py:27-45 | The output is a subsequence of the input. A row survives, with its multiplicity, exactly when its movie has more than 50 rows in the input and its user more than 10 rows after step 1. Every output movie had more than 50 input rows, and every output user has more than 10 output rows. |
| `InteractionFilter.UnpopularMovieIsDropped` | data_pipeline.py:36-38 | A movie with at most 50 rows (exactly 50, say) loses all of its rows. |
| `InteractionFilter.SinglePopularMovieKept` | data_pipeline.py:36-38 | With 51 or more rows of one movie and nothing else, step 1 keeps everything. |
| `InteractionFilter.OneRowUserDropped` | data_pipeline.py:41-43 | Step 2 on an active user's rows plus one row of a one-rating user returns exactly the active user's rows. |
| `InteractionFilter.TwoPassIsNotAFixedPoint` | data_pipeline.py:35-43 | The input is 50 rows of user 0 and one row of user 1, all for movie 1. Movie 1 survives, but with only 50 rows in the output. The movie bound therefore does not hold of the output. |
| `Seqs.CountOfKeptGroup` | data_pipeline.py:41-43 | A filter that keeps a whole group leaves that group's count unchanged. |
| `RatingMatrix.MergeMembers` | data_pipeline.py:61 | A joined record exists exactly when some rating row and some catalogue entry share its movieId, carrying the entry's title and the row's user and rating. |
| `RatingMatrix.OrphanJoinsNothing` | data_pipeline.py:61 | A rating row whose movieId has no catalogue entry joins to nothing. |
| `RatingMatrix.OrphansContributeNothing` | data_pipeline.py:61 | Dropping the rows without a catalogue entry before the join changes nothing. |
| `RatingMatrix.RatingsAt` | data_pipeline.py:63-67 | The ratings collected for a (title, user) pair are exactly the ratings of the joined records with that title and user, each as many times as such a record carries it. |
| `RatingMatrix.CellValue` | data_pipeline.py:67-68 | A cell times the number of its ratings equals their sum, so the cell is their mean. With no ratings the cell is 0. |
| `RatingMatrix.CellWithinBounds` | data_pipeline.py:67 | A mean lies between any lower and upper bound of the ratings it averages. |
| `RatingMatrix.Pivot` | data_pipeline.py:63-68 | The pivot is rectangular. Its row labels are the strictly ascending distinct titles of the joined records, and its column labels the strictly ascending distinct user ids. Each cell is the mean, or 0, of the ratings at its (title, user). |
| `RatingMatrix.PivotLabels` | data_pipeline.py:61-66 | A title is a row label exactly when some rating row joins a catalogue entry with that title. A user is a column label exactly when some joined rating row is theirs. |
| `RatingMatrix.PivotCellIsMean` | data_pipeline.py:63-68 | Each cell is the mean of its (title, user) ratings and lies between their minimum and maximum; a pair with no ratings reads 0. |
| `RatingMatrix.CellsNonNegative` | data_pipeline.py:68 | With non-negative ratings every cell is at least 0. |
| `RatingMatrix.BuildPipeline` | data_pipeline.py:99-116 | The returned index is the pivot's row labels, one per matrix row, without repetitions. It names exactly the catalogue titles of movies that kept a row through the filter, each with more than 50 input ratings. |
| `Ranking.DescendingOrder` | recommender.py:63 | The ranking lists every index of the row exactly once, by non-increasing score. |
| `Ranking.ReverseOfAscending` | recommender.py:63 | Reading an ascending permutation backwards (`[::-1]`) gives a descending one. |
| `Ranking.InsertByScore` | recommender.py:63 | One step of the ascending argsort: inserting an index keeps the scores non-decreasing and adds exactly that index. |
| `Ranking.InsertByScoreDistinct` | recommender.py:63 | Inserting an index not yet present keeps the ranking free of repetitions. |
| `Ranking.ArgsortPrefix` | recommender.py:63 | The ascending argsort of the first n scores is a permutation of 0..n-1 with non-decreasing scores. |
| `Ranking.SkipFirst` | recommender.py:63 | `order[1 : top_n + 1]` is the window of the ranking that starts at position 1. For `top_n >= 0` its length is `min(top_n, N - 1)`. |
| `Ranking.NegativeTopN` | recommender.py:63 | A negative `top_n` follows Python slicing. -1 selects nothing. -m for m >= 2 also drops the last m - 1 entries. |
| `Ranking.PrefixSelects` | recommender.py:63 | A prefix of a descending ranking is distinct and non-increasing, and no entry outside it scores above its last entry. |
| `Ranking.SkipFirstSelects` | recommender.py:62-63 | The slice as written returns distinct valid indices in non-increasing score order, leaving out the first-ranked index. No index left out, other than the first-ranked one, scores above the last index returned. |
| `Ranking.StrictTopIsSkipped` | recommender.py:62-63 | If the queried index scores strictly above every other index, every descending ranking puts it first, so the slice leaves it out. |
| `Ranking.Without` | recommender.py:62-63 | Removing the queried index keeps every other index, in its order (a subsequence), each once when the ranking had no repeats. |
| `Ranking.WithoutKeepsDescending` | recommender.py:62-63 | Removing an index from a descending ranking leaves it descending. |
| `Ranking.SkipQuerySelects` | recommender.py:62-63 | The corrected selection never returns the queried index. For `top_n >= 0` it returns `min(top_n, N - 1)` distinct valid indices in non-increasing score order, and no other index left out scores above the last one returned. |
| `Ranking.SkipQueryInRange` | recommender.py:63-66 | The corrected selection only returns positions of the row. |
| `Ranking.QueryFirstAgrees` | recommender.py:62-63 | When the queried index already ranks first, the corrected selection equals the one as written. |
| `Ranking.QueryFirstIsARanking` | recommender.py:62-63 | When the queried index has the row's top score, putting it first is itself a descending ranking. So the correction is a tie order the code could have produced. |
| `Recommender.PipelineBuildsEngine` | data_pipeline.py:116 | The index the pipeline returns, with a similarity matrix of matching shape, satisfies the engine's assumptions: no repeated title and one row per title. |
| `Recommender.IndexOf` | recommender.py:57 | The returned position holds the title and no earlier one does. In an index without repetitions, as the pivot's is, that is the title's only position, which is what `get_loc` returns; the engine looks a title up only once it is known to be present. |
| `Recommender.IndexOfDistinct` | recommender.py:57 | In an index without repetitions, looking up the title at position i gives i. |
| `Recommender.TitlesAt` | recommender.py:66 | Mapping positions back to titles keeps length and order. |
| `Recommender.TitlesAtDistinct` | recommender.py:66 | Distinct positions of a repetition-free index give distinct titles. |
| `Recommender.GetRecommendationsAsWritten` | recommender.py:34-68 | The result is the not-found message exactly when the title is not in the index; otherwise it is a list of index titles. |
| `Recommender.AsWrittenSelects` | recommender.py:60-66 | For a known title and `top_n >= 0`, the list as written has `min(top_n, N - 1)` distinct index titles, in non-increasing similarity to the query. |
| `Recommender.AsWrittenAgreesOnStrictDiagonal` | recommender.py:62-63 | If the query is strictly more similar to itself than to any other title (the case the code assumes), the code as written and the corrected version return the same list. |
| `Recommender.AnyTieOrderRecommendsAQueryToItself` | recommender.py:62-63 | For every ranking of the tied row [1.0, 1.0], whatever order the sort gives the tie, the slice keeps the title ranked second, so querying that title lists the title itself. |
| `Recommender.QueryRecommendedToItself` | recommender.py:62-63 | With two titles whose rows are both [1.0, 1.0], asking for "A" returns ["A"]: the query is recommended to itself. |
| `Recommender.GetRecommendations` | recommender.py:34-68 | The corrected function gives the not-found message exactly when the title is not in the index; otherwise it gives a list of index titles. |
| `Recommender.RecommendationsSelect` | recommender.py:49-66 | For a known title the corrected list never contains the title itself. For `top_n >= 0` it has `min(top_n, N - 1)` distinct index titles, in non-increasing similarity. |
| `Recommender.RecommendationsAreMostSimilar` | recommender.py:60-63 | No title other than the query that the corrected list leaves out is more similar than the list's last title. |
| `Recommender.TiedTitleRecommended` | recommender.py:62-63 | On the tied two-title example, the corrected function returns ["B"]. |
| `Recommender.GetAllTitles` | recommender.py:72-74 | `get_all_titles` returns a permutation of the index in ascending code-point order. |
| `Recommender.AllTitlesUnique` | recommender.py:72-74 | Any ascending permutation of the index equals `get_all_titles`' result, so the result does not depend on how the sort works. |
| `Recommender.AllTitlesOfSortedIndex` | recommender.py:72-74 | An index already in strictly ascending order is returned unchanged. |
| `Recommender.AllTitlesArePivotIndex` | recommender.py:72-74 | On the pipeline's index (the pivot's row labels) `get_all_titles` is the identity, so the title list and the matrix rows are in the same order. |
| `Sorting.Sort` | recommender.py:74 | `sorted()` returns an ascending permutation of its input. |
| `Sorting.SortedPermutationIsUnique` | recommender.py:74 | Two ascending sequences holding the same elements are equal. |
| `Sorting.SortUnique` | data_pipeline.py:63-66 | A pivot's labels are strictly ascending and are exactly the distinct values present. |
| `Text.LessIsStrictTotalOrder` | recommender.py:74 | Python's string comparison is irreflexive, transitive and total, so titles can be sorted by it. |
| `SearchUi.SplitTitleYear` | app.py:391-396 | A title that does not end with ')' or has no '(' comes back whole, with an empty year. Otherwise the name has no surrounding whitespace, and the year has no '(' and does not end with ')'. |
| `SearchUi.SplitNameIsBeforeLastParen` | app.py:394-395 | The name is the text before the last '(' with only whitespace removed around it. |
| `SearchUi.LastParenOfJoin` | app.py:394 | In "name (year)" with no '(' inside the year, the last '(' is the one opening the year. |
| `SearchUi.SplitJoinRoundTrip` | app.py:391-396 | Splitting "name (year)" gives back name and year, provided the name has no surrounding whitespace and the year contains no '(' and does not end with ')'. |
| `SearchUi.SplitYearIsAfterLastParen` | app.py:394-396 | The year is the text after the last '(', with only ')' characters cut from its end. |
| `Text.RFind` | app.py:394 | The position of the last occurrence of a character, or -1 when it does not occur. |
| `Text.RStripChar` | app.py:395 | `rstrip(')')` removes exactly the trailing run of ')'. |
| `Text.Strip` | app.py:395 | `strip()` returns the slice left after removing leading and trailing whitespace, and that slice starts and ends with non-whitespace. |
| `SearchUi.NormalizeQuery` | app.py:442 | The normalised query has no surrounding whitespace and no upper-case ASCII letter. |
| `Text.Lower` | app.py:442-443 | `lower()` keeps the length and lower-cases each character. |
| `Text.StripLower` | app.py:442 | Stripping and lower-casing commute. |
| `SearchUi.SearchIgnoresCase` | app.py:442-443 | Typing the query in any letter case gives the same list. |
| `SearchUi.SearchIgnoresSurroundingSpace` | app.py:442-443 | Any whitespace typed before or after the query gives the same list. |
| `SearchUi.FilterTitles` | app.py:443 | The filtered list is a subsequence of all titles. Each title keeps all its copies when its lower-cased text contains the query, and none otherwise. With an empty query every title is kept. |
| `Text.ContainsIsSubstring` | app.py:443 | The substring scan agrees with "the query occurs at some position". |
| `SearchUi.SearchFindsSubstrings` | app.py:442-443 | A title is listed exactly when it is a catalogue title and the normalised query occurs in its lower-cased text. |
| `SearchUi.BlankQueryListsAll` | app.py:442-443 | An empty or all-whitespace query lists all titles unchanged. |
| `Text.Decimal` | app.py:449 | `str(n)` is a non-empty run of decimal digits without a leading zero. |
| `Text.DecimalRoundTrip` | app.py:449 | Reading the digits of `str(n)` back gives n. |
| `SearchUi.PillText` | app.py:449 | The pill reads "No matches" exactly for a count of 0. A count of 1 reads "1 match found", and any larger count n reads "n matches found". |
| `SearchUi.PillTextExamples` | app.py:449 | 0, 1 and 2 read "No matches", "1 match found" and "2 matches found". |
| `SearchUi.PillTextTwoDigits` | app.py:449 | 12 reads "12 matches found". |
| `SearchUi.PillTextInjective` | app.py:449 | Different counts give different pill texts. |
| `SearchUi.MatchPill` | app.py:447-449 | The pill is shown exactly when the normalised query is not empty, and it carries the text for the number of listed titles. |
| `SearchUi.NoMatchPillMeansNoTitle` | app.py:444-449 | The pill shows "No matches" in the no-match style exactly when something was typed and no catalogue title contains it. |

## Left out

- Loading the CSV files and the console messages (data_pipeline.py:19-23, 95-114) are I/O. The model takes the rows and the catalogue as arguments.
- The conversion to a compressed sparse row matrix (data_pipeline.py:74-81) is a library call with no logic of its own. The model keeps the dense pivot.
- Cosine similarity (recommender.py:17-30) is floating-point arithmetic inside a foreign library. The model takes the similarity matrix as an input of the right shape.
- The import-time construction of the pipeline and of the similarity matrix (recommender.py:13, 30) is ambient state. It becomes the explicit `index` and `sim` arguments.
- The exact tie order of numpy's default sort is not modelled; it is not guaranteed to be stable and may differ between platforms and versions. `Ranking.DescendingOrder` fixes one tie order, the reversed stable sort. The selection lemmas hold for every descending ranking, and `Recommender.AnyTieOrderRecommendsAQueryToItself` shows the self-recommendation for every tie order.
- When the noise filter leaves no rows, the similarity computation at import time (recommender.py:27-30) fails on the empty matrix and the module does not load. That startup failure belongs to the cosine similarity call, which is left out; the model instead answers every query on an empty index with the not-found message.
- The order of rows after the pandas merge is not modelled; every later step depends only on which joined records exist and how often.
- Streamlit rendering, CSS, HTML templates, widgets and caching in app.py are user interface and are left out. Only the pure helpers named above are modelled.
- `Text.Strip`, `Text.IsSpace`: whitespace is the ASCII whitespace Python recognises (tab, line feed, vertical tab, form feed, carriage return, the four information separators and space). Python's wider Unicode whitespace set is not modelled.
- `Text.Lower`: only ASCII letters are lower-cased. Unicode case mapping is not modelled.
- `Text.Less`: this is code-point order, which is how Python compares `str` values. Locale-aware collation does not arise.

## Findings

| source | as written | input that shows it | evidently intended | confidence | as-written member | corrected member |
|---|---|---|---|---|---|---|
| recommender.py:62-63 | The selection drops whichever index ranks first in `argsort(scores)[::-1]`, assuming it is the queried title. When another title ties with the query's own score, the reversed argsort can rank that title first. The query itself then stays in the list and is recommended to itself, while its most similar title is dropped. | index ["A", "B"], similarity rows [1.0, 1.0] and [1.0, 1.0] (two titles with identical rating vectors), `top_n` 5. With the reversed stable order, query "A" gives ["A"]. Under any tie order, the title the sort ranks second is recommended to itself. | Leave out the queried title itself and return the `top_n` most similar other titles; here ["B"]. | not executed | `Recommender.QueryRecommendedToItself`, `Recommender.AnyTieOrderRecommendsAQueryToItself` | `Recommender.RecommendationsSelect` |
