# Movie recommender: the ranking step of `get_recommendations`

This project models the one piece of original logic in the CineMagic Theater
Streamlit app: how `get_recommendations(movie_title, movies_df,
num_recommendations)` picks the movies to recommend once the cosine-similarity
matrix exists. The function does five things:

1. It looks up the first row whose title equals the selected movie.
2. It pairs every score in that row of the matrix with its row position (`enumerate`).
3. It sorts the pairs by descending score. Python's `sorted` is stable, so equal scores keep corpus order.
4. It drops the first sorted pair and keeps the next `num_recommendations` pairs.
5. It returns those rows. If anything in the `try` block raises, it returns the first `num_recommendations` rows instead.

There are two modules:

- `PythonLists` models the Python built-ins the step is made of: `enumerate`,
  `sorted(key=score, reverse=True)` (a stable insertion sort), slicing with
  clamped bounds, and the projection `[i[0] for i in ...]`.
- `Recommender` models the title lookup, the `try` body (`TryRecommend`, which
  returns a `Result`), the `except` fallback (`Recommend`), and a corrected
  selection (see "Findings").

The model connects to the rest of the program like this:

- **Similarity matrix.** TF-IDF vectorisation and cosine similarity are
  scikit-learn calls. Their outcome is an input, `Similarity`: either
  `Computed(matrix)` (an n-by-n matrix) or `VectorizerFailed`, which stands for
  any exception raised at lines 97-104 (for example an empty vocabulary, or a
  missing value in `content`).
- **Scores.** Scores are `int`s, because only their order is used.
- **Rows.** Rows are 0-based positions. The label from `.index[0]` is the same
  as the position, because `pd.read_csv` gives a default index.
- **Result.** What the function returns is the list of row positions of the
  DataFrame it would return.

Two behaviours of the code are worth stating up front:

- **Title not found.** An unknown title does not reach the caller as an error:
  the `except` branch returns `head(k)` (app.py:118-120).
- **Query excluded.** The query is not always left out: line 114 drops
  whichever pair sorts first (see "Findings").

## Model

| member | source | states |
|---|---|---|
| `Recommender.FirstIndexOf` | app.py:107 | The lookup succeeds exactly when some row has the title. The row found has that title, and no earlier row does. |
| `Recommender.TryRecommend` | app.py:95-117 | The `try` body raises exactly when the similarity stage raised or no row has the title, and reports which. When it succeeds, it returns `min(k, n-1)` distinct in-range row positions. |
| `Recommender.Recommend` | app.py:94-120 | The result has `min(k, n-1)` rows when the title is found and `min(k, n)` rows otherwise, so k = 0 gives `[]` on both paths. All rows are in range and pairwise distinct. On the fallback, the result is exactly rows 0, 1, ... in corpus order. |
| `Recommender.RecommendUsesFirstMatch` | app.py:107-117 | Only the first row with the title is read. The result is that row's ranking without its first entry, cut to k entries. |
| `Recommender.RecommendInOrder` | app.py:110-115 | Returned rows are in non-increasing order of their score against the query row. Equal scores come in ascending row order. |
| `Recommender.RankedPermutesRow` | app.py:110-111 | The ranking is a permutation of the row positions. Each position keeps its own score. Order is descending by score, with ties by ascending position. |
| `Recommender.RankedIsUnique` | app.py:110-111 | Every rearrangement of the enumerated scores in that order equals the ranking, so the stable sort's result depends only on the scores. |
| `Recommender.TopRankedIff` | app.py:111-114 | The dropped entry is the query row if and only if no row scores higher than the query's self-score and no earlier row ties with it. |
| `Recommender.QueryReturnedIff` | app.py:111-115 | The query row is returned if and only if its place in the ranking is between 1 and k. |
| `Recommender.SelfReturnedOnEarlierTie` | app.py:114 | When an earlier row scores at least the query's self-score and k ≥ n-1, the query itself is among its recommendations. |
| `Recommender.SelfReturnedTwinDropped` | app.py:111-114 | For any corpus size and any k ≥ 1: when the query's self-score is the highest in its row and exactly one earlier row ties with it, the query is among its own recommendations and that earlier twin is not. |
| `Recommender.TwinFirstQuerySecond` | app.py:110-111 | In that situation, the earlier twin ranks first and the query second. |
| `Recommender.RecommendIsTopK` | app.py:111-115 | The code as written returns a top k: every returned row outranks (higher score, or equal score and earlier position) every row that is neither returned nor the dropped first entry. |
| `Recommender.SelfReturnedExample` | app.py:114 | Two rows with identical content, queried by the second title, return `[1]`: the query itself. |
| `Recommender.RecommendExcludingQuery` | app.py:114-120 | Corrected selection. It returns the same number of distinct in-range rows, and the query row is never among them. The fallback is unchanged. |
| `Recommender.ExcludingQuerySelects` | app.py:114-115 | Removing the query row from the ranking and keeping k entries gives `min(k, n-1)` distinct rows, none of them the query. |
| `Recommender.ExcludingQueryInOrder` | app.py:111 | The corrected selection keeps the ranking order: scores non-increasing, ties by ascending position. |
| `Recommender.ExcludingQueryIsTopK` | app.py:114 | The corrected selection returns a top k of the other rows: every returned row outranks every row that is neither returned nor the query. |
| `Recommender.ExcludingQueryTakesPrefix` | app.py:114 | The corrected selection is the first `min(k, n-1)` entries of the ranking with the query's pair removed. That ranking is still in order, holds every other row with its own score, and nothing else. |
| `Recommender.WithoutQueryRow` | app.py:114 | Removing the query's pair from the ranking leaves n-1 pairs with distinct positions, in order. Every other row appears with its own score, and the query does not appear. |
| `Recommender.PrefixIsTopK` | app.py:114 | In a sequence in ranking order, each of the first c entries outranks every entry outside that prefix. |
| `Recommender.ExcludingQueryAgreesWhenTop` | app.py:111-114 | When the query row ranks first, the corrected selection and the code as written return the same rows. |
| `Recommender.WithoutKeepsOrder` | app.py:114 | Removing one row's pairs from an ordered ranking leaves it ordered. |
| `Recommender.WithoutLength` | app.py:114 | Removing a row that occurs once among distinct positions shortens the ranking by one and keeps the positions distinct. |
| `Recommender.Without` | app.py:114 | The remaining pairs are exactly the pairs of the ranking whose row is not the removed one. |
| `PythonLists.Slice` | app.py:114 | `s[lo:hi]` for non-negative bounds. The length is `max(0, min(hi, n) - min(lo, n))`, and element i is `s[lo + i]`. |
| `PythonLists.SortPermutes` | app.py:111 | `sorted` returns a rearrangement (the same multiset) of its input. |
| `PythonLists.SortNonIncreasing` | app.py:111 | With `reverse=True`, scores come out non-increasing. |
| `PythonLists.SortStable` | app.py:111 | For every score, the pairs with that score come out in their input order: the sort is stable despite `reverse=True`. |
| `PythonLists.SortInOrder` | app.py:110-111 | Sorting `enumerate` output orders it by descending score, with ties in ascending position. |
| `PythonLists.InOrderUnique` | app.py:111 | Two sequences with the same elements cannot both be in that order unless they are equal. |

## Left out

- TF-IDF vectorisation, English stop-word removal, the 5000-feature cap and cosine similarity (app.py:99-104). These are scikit-learn calls over floating-point values. The model takes their result (or their failure) as an input, with integer scores; NaN and rounding are not modelled.
- The in-place assignment of the `content` column (app.py:97). It changes the caller's DataFrame, but the returned ranking does not depend on it.
- `load_data` (app.py:76-89): reading the CSV, the Streamlit cache, and the sample-data fallback. It is I/O; the model takes the titles and the matrix as given.
- The search tab (app.py:185-202). It relies on pandas `str.contains`, which treats the term as a regular expression, and regex semantics belong to pandas.
- All Streamlit UI: page setup, CSS, tabs, widgets, balloons, card rendering and the footer (app.py:7-73, 122-212). It is presentation only.
- `st.error` inside the exception handler (app.py:119). It only reports; the handler's returned value is modelled.
- Recommend: models only the row positions of the returned DataFrame, not the row contents `iloc` copies out.
- Recommend: covers only a non-negative `num_recommendations` (the slider gives 3 to 8). Python's negative-bound slicing and `head(-k)` are not modelled.
- SelfReturnedOnEarlierTie: requires k + 1 ≥ n, so it covers only corpora no larger than k + 1. SelfReturnedTwinDropped states the general case, with k ≥ 1 and the twin's absence.
- Recommend: covers only a DataFrame with the default 0-based index, so that the `.index[0]` label is also the row position.

## Findings

| source | as written | input that shows it | evidently intended | confidence | as-written member | corrected member |
|---|---|---|---|---|---|---|
| app.py:114 | `sim_scores[1:k+1]` drops the first sorted pair. This assumes the first pair is the selected movie. | Two rows with identical genres and description, where the user selects the later one. Both score the same, the stable sort puts the earlier row first, and that row is the one dropped. The selected movie is recommended to itself, and its twin is missing. | Leave out the selected movie's own row, wherever it ranks, and return the next k. | medium; not executed | `Recommender.SelfReturnedTwinDropped` | `Recommender.RecommendExcludingQuery` |
