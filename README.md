# Movie recommender: a Dafny model of the recommendation flow

This project models the recommendation logic of the movie recommender
(`Movie-Recommendation-System/app.py`) and proves its properties. At start-up the recommender
reads a table of movies. It replaces every missing value in six selected
columns by the empty string. It then joins five of those columns (genres,
keywords, tagline, cast, director) into one text per movie and builds a
similarity matrix from those texts. A request carries a typed movie name and
runs four steps:

1. A fuzzy matcher turns the name into a list of close titles.
2. The first close title is resolved to the first row with that title.
3. Every row is paired with its score in the matched row of the matrix. The
   pairs are sorted by score, highest first, with a stable sort.
4. The titles of the first thirty pairs are listed.

Modules, one per stage:

- `catalog.dfy` (`Catalog`) holds the table. A class `MoviesData` keeps its
  columns as a `map<string, seq<Cell>>`, and a cell is either text or
  `Missing`. `FillNulls` is the fill loop: it replaces each selected column
  by its filled copy.
- `features.dfy` (`Features`) builds the combined text. It also gives a
  reference definition (`JoinSpaced`) that the combined text is proved
  equal to.
- `ranking.dfy` (`Ranking`) models enumerate plus the stable descending sort
  as pure functions. It proves that the result is a permutation, that scores
  do not increase along it, that ties stay in ascending row order, and that
  these properties fix the order uniquely.
- `recommend.dfy` (`Recommender`) covers title resolution with its error
  results, the 30-item append loop (a method with a loop), start-up, and
  the whole request.

Scores are `real`, and only their order matters. The similarity matrix is a
parameter: a square `seq<seq<real>>`. The fuzzy matcher's result is also a
parameter, `matches: seq<string>`.

Four behaviours of the code that are easy to miss:

- A movie whose five combined fields are all missing still gets a combined
  text: `"    "`, the four separators alone (`AllMissingRowIsFourSpaces`).
- With no close match, the code indexes an empty list, which raises an
  exception and fails the request. The model returns `Err(NoCloseMatch)`
  for that case.
- The matched movie is not always ranked first, even though it has the
  highest score against itself. It is first exactly when no lower row ties
  its self-score (`SelfRankedFirst`, `FirstRecommendation`).
  For example, a duplicate row with identical text comes first when it is
  at a lower position.
- The result length is fixed at `min(30, number of rows)`. No limit is
  passed in.

The title lookup keeps the first matching *label* of the table's index. The
CSV file is read with the default index, so that label equals the row
position. The model therefore uses positions throughout, as the final
positional lookup of titles does.

## Model

| member | source | states |
|---|---|---|
| `Catalog.FillNa` | Movie-Recommendation-System/app.py:16 | filling one column keeps its length and every text cell, turns each missing cell into the given text, and leaves no cell missing |
| `Catalog.FillNaIdempotent` | Movie-Recommendation-System/app.py:15-16 | filling an already filled column changes nothing |
| `Catalog.MoviesData.constructor` | Movie-Recommendation-System/app.py:11 | the loaded table holds exactly the given columns, each with one cell per row |
| `Catalog.MoviesData.FillNulls` | Movie-Recommendation-System/app.py:12-16 | after the fill loop every selected column is text with no missing cell; each selected column equals its filled old value, every other column is unchanged, no column is added or removed, and no row is dropped or reordered |
| `Catalog.TitleList` | Movie-Recommendation-System/app.py:32 | the title list has one entry per row, and entry i is the text of row i's title cell |
| `Features.CombineRow` | Movie-Recommendation-System/app.py:19 | a row's combined text is as long as its five fields together plus four separators |
| `Features.CombineRowIsJoin` | Movie-Recommendation-System/app.py:19 | the combined text equals the independent definition: genres, keywords, tagline, cast and director joined by single spaces, with nothing added |
| `Features.JoinSpacedLength` | Movie-Recommendation-System/app.py:19 | joining n > 0 fields adds exactly n - 1 separator characters |
| `Features.CombinedFeatures` | Movie-Recommendation-System/app.py:19 | the combined column has one text per row; each text is that row's genres, keywords, tagline, cast and director joined by single spaces (the reference join), and its length is the five field lengths plus 4 |
| `Features.CombinedIgnoresTitle` | Movie-Recommendation-System/app.py:12-19 | tables that agree on the five combined columns have identical combined texts, whatever their titles |
| `Features.AllMissingRowIsFourSpaces` | Movie-Recommendation-System/app.py:15-19 | a row whose five combined fields were all missing still gets a combined text: four spaces |
| `Ranking.Enumerate` | Movie-Recommendation-System/app.py:37 | the enumerated row pairs every position i with row[i], one pair per position, in ascending position order |
| `Ranking.Insert` | Movie-Recommendation-System/app.py:38 | inserting a pair adds exactly that pair and loses none |
| `Ranking.InsertOrdered` | Movie-Recommendation-System/app.py:38 | inserting a pair whose row is below all others keeps the order "higher score first, ties by lower row" |
| `Ranking.SortByScore` | Movie-Recommendation-System/app.py:38 | sorting pairs with ascending rows yields a permutation of them in which each pair has a higher score than every later pair, or an equal score and a lower row |
| `Ranking.EnumeratePermutation` | Movie-Recommendation-System/app.py:37 | any rearrangement of the enumerated row has one pair per position, each with a valid row and that row's own score |
| `Ranking.RankByScore` | Movie-Recommendation-System/app.py:37-38 | the ranking is a permutation of the enumerated row, ordered by score (highest first) with ties in ascending row order, and as long as the row |
| `Ranking.OrderedPermutationsEqual` | Movie-Recommendation-System/app.py:38 | two orderings of the same pairs that both follow the ranking order are equal |
| `Ranking.RankingIsUnique` | Movie-Recommendation-System/app.py:37-38 | any stable descending sort of the enumerated row gives exactly this ranking |
| `Ranking.RankingProperties` | Movie-Recommendation-System/app.py:37-38 | the ranking's rows are a permutation of 0..n-1 (every row present, none twice), each with its own score; scores never increase along it; and equal scores appear in ascending row order |
| `Ranking.TopIsFirstMaximum` | Movie-Recommendation-System/app.py:37-38 | the first ranked pair holds the row's maximum score, and no lower row reaches that score |
| `Ranking.SelfRankedFirst` | Movie-Recommendation-System/app.py:36-38 | when the matched row scores highest against itself, it is ranked first exactly when every lower row scores strictly less |
| `Recommender.FirstIndexOf` | Movie-Recommendation-System/app.py:36 | a row is found exactly when the title occurs; the found row has that title, and no lower row does |
| `Recommender.ResolveTitle` | Movie-Recommendation-System/app.py:33-36 | an empty match list fails with NoCloseMatch; a first match that is not a catalogue title fails with TitleNotFound; otherwise the result is the first row whose title equals the first match |
| `Recommender.MatchFromCatalogResolves` | Movie-Recommendation-System/app.py:33-36 | when the matcher offers only catalogue titles, a non-empty match list always resolves |
| `Recommender.TopTitles` | Movie-Recommendation-System/app.py:40-43 | the loop lists exactly min(30, n) titles, and entry k is the title of the k-th ranked row |
| `Recommender.LoadCatalog` | Movie-Recommendation-System/app.py:11-19 | start-up produces a new table whose selected columns are all filled and all other columns unchanged, plus the combined text of every row |
| `Recommender.Recommend` | Movie-Recommendation-System/app.py:30-43 | a request fails with NoCloseMatch when there is no close match, fails with TitleNotFound when the first match is not a catalogue title, and succeeds exactly when the first match is a catalogue title; on success it lists min(30, n) titles, the k-th being the title of the k-th row in the ranking of the matched row's similarities |
| `Recommender.FirstRecommendation` | Movie-Recommendation-System/app.py:36-43 | the first listed title belongs to the lowest row that reaches the matched row's maximum score; when the matched movie's self-score is maximal, that is the matched movie exactly when no lower row ties it |

## Left out

- Reading `movies.csv` is not modelled; the constructor takes the table's columns as given.
- The Flask application is not modelled: routing, form access, template rendering, the GET branch, and starting the server.
- TF-IDF vectorisation and cosine similarity are library computations over floating point. They are replaced by a given square matrix of real scores, so symmetry, the unit diagonal and the [0, 1] range are not modelled. Where a property needs a maximal self-score, it is stated as a hypothesis (`SelfRankedFirst`).
- The fuzzy matcher (a sequence-similarity ratio with a cutoff and a cap on the number of results) is not modelled. Its output is a parameter. `MatchFromCatalogResolves` states what holds when that output contains only catalogue titles.
- Floating-point details of the scores (rounding, and a self-score below 1 by rounding) are not modelled: scores are exact reals.
- An uncaught exception becomes an error result: `Err(NoCloseMatch)` or `Err(TitleNotFound)`. The web server's error response is not modelled.
- The column lookup raises an error when a selected column is absent. The model states this as a requirement on `FillNulls` and `LoadCatalog`, because the loaded table always has these columns.
- Ranking.SortByScore: the model is specific to the enumerated row, whose row positions ascend. It requires that, so it does not state stability for arbitrary input lists.
- The disease-prediction application (`Multiple-disease-pred-main/multiple_disease_pred.py`) is not part of this model. It is page layout, input widgets, loading of saved models, and calls to their predict methods.
