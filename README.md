# Film recommender: a Dafny model of `get_recommendations`

The service answers a request for films (genre, minimum year, maximum runtime,
minimum rating, minimum votes, optional director and star) with up to eight
catalog rows. It keeps the rows that pass all five conditions (the *strict*
rows). When there are at least eight of them, it ranks them by text similarity
to the query and returns the best eight. Otherwise it returns the strict rows as
they are, followed by a ranked *backfill* of the genre matches from catalog position k on,
where k is the number of strict rows. Requests are
gated by an optional shared key and by a mandatory-field check.

The model covers:

- `options.dfy`, `seqs.dfy`: an optional value, order-preserving selection
  (`Filter`, the effect of a boolean mask) and `Take` (the effect of `head(n)`).
- `text.dfy`: the genre test `str.contains(g, case=False)`, read as a search for
  a literal substring after ASCII case folding.
- `catalog.dfy`: rows, queries, the combined text `genre + " " + director + " " + star`,
  the strict and genre-only filters, and the backfill selection by original
  catalog position.
- `ranking.dfy`: scores attached to candidates, a descending sort, and
  `TopRanked`, which says what `head(n)` of a descending sort may return.
  Nothing is promised about the order of equal scores, but any two admissible
  results agree on the score at every position.
- `recommender.dfy`: `get_recommendations` as written, including its quirks.
  Each candidate is scored by its position in a renumbered frame. The backfill
  drops genre matches by catalog position `< k`, where `k` is the number of
  strict rows. In the underflow branch the strict rows stay unscored and unsorted.
  An empty backfill frame is still scored, and that call fails.
- `corrected.dfy`: the same routine with the positional slips repaired and an
  empty backfill scored as no candidates (see Findings). `findings.dfy` proves,
  for every input, which matrix row each positional score is taken from, and shows inputs that
  expose each slip.
- `api.dfy`: the key gate, the mandatory-field check with its defaults, and the
  handler that connects them to the recommender, including the 500 answer when
  the recommender fails.

Similarity is a parameter `sim(text, j)`: the score of a query text against row
`j` of the similarity matrix. The matrix has one row per catalog row, in catalog
order. Scores are `real`.

Behaviour the model keeps exactly as the code has it:

- The sort is pandas' default `sort_values`, which is not stable, so the order
  of equal scores is not fixed.
- In the underflow branch the strict rows are neither scored nor sorted; they
  come first, in catalog order.
- The backfill exclusion and the score alignment are positional, not by row
  identity, and an empty backfill frame is passed to `cosine_similarity`. The
  model keeps all three; Findings lists them with their corrections.
- `cosine_similarity` raises `ValueError` for a candidate matrix without rows:
  scikit-learn's input validation demands at least one sample. That library is
  not part of this model; the failure is modelled as the outcome
  `SimilarityFailed`, which the handler answers with status 500.

## Model

| member | source | states |
|---|---|---|
| `Catalog.Combine` | main.py:22 | the combined text is two characters longer than the three fields together and holds the genre, a space, the director, a space and the star at these offsets |
| `Catalog.SameFieldsSameText` | main.py:109 | a query's text is built exactly like a catalog row's text from the same three fields |
| `Text.ContainsIffOccurs` | main.py:36 | the substring search succeeds if and only if the pattern occurs at some offset of the text |
| `Text.ContainsIgnoreCaseIff` | main.py:36 | the case-insensitive genre test holds if and only if the folded pattern occurs in the folded genre |
| `Text.LiteralOccurrenceFound` | main.py:49 | a genre that literally contains the query genre always passes the genre test |
| `Catalog.StrictFilterSelects` | main.py:35-41 | a row is kept if and only if its genre matches and year >= q.year, runtime <= q.runtime, rating >= q.rating and votes >= q.votes (all inclusive); each kept row is kept as often as it occurs |
| `Catalog.StrictFilterKeepsOrder` | main.py:35-41 | the strict filter preserves catalog order: filtering two consecutive parts and concatenating gives the filter of the whole |
| `Catalog.GenreFilterSelects` | main.py:49 | the genre-only mask keeps exactly the catalog rows whose genre matches |
| `Catalog.StrictWithinGenre` | main.py:35-49 | the strict rows form a sub-multiset of the genre matches |
| `Catalog.BackfillIsGenreSuffix` | main.py:49-50 | the backfill frame is exactly the genre filter of the catalog without its first k rows, where k is the number of strict rows; it may hold strict rows and it omits genre matches before position k |
| `Ranking.SortByScore` | main.py:46 | the sorted frame is a permutation of its input with non-increasing scores |
| `Ranking.HeadOfSortedIsTop` | main.py:46-47 | the first n rows of any descending permutation are min(n, size) rows of the pool, sorted, and none of them scores below a row left out |
| `Ranking.TopScoresAgree` | main.py:46-47 | any two such selections of one pool have the same length and the same score at every position, so the unstable sort can only reorder or swap candidates whose scores tie |
| `Findings.StrictScoresPositional` | main.py:41-44 | for every catalog and query, the i-th row of the renumbered strict frame is the strict match at some catalog position p >= i; its positional score equals its own row's score for every similarity when p = i, and for a similarity that tells rows apart only when p = i |
| `Findings.BackfillScoresPositional` | main.py:50-51 | for every catalog and query, the i-th row of the renumbered backfill frame is the genre match at some catalog position p >= k + i; its positional score equals its own row's score for every similarity when p = i, and for a similarity that tells rows apart only when p = i, which never holds once k > 0 |
| `Recommender.RankStrict` | main.py:43-47 | with at least eight strict rows: exactly eight records, all scored, all strict matches, and they are the top eight of the positionally scored strict rows |
| `Recommender.Backfill` | main.py:49-59 | with k < 8 strict rows: fails if and only if the backfill frame is empty; otherwise the first k records are the strict rows in catalog order without scores, the rest are the top 8 - k of the positionally scored backfill frame, and the length is k + min(8 - k, size of backfill); the remaining_count <= 0 branch is unreachable |
| `Recommender.GetRecommendations` | main.py:34-61 | fails if and only if there are fewer than eight strict rows and the backfill frame is empty; otherwise never more than eight records, every record a genre match, and the result of the branch the strict count selects, as stated for RankStrict and Backfill |
| `Corrected.ExclusionByIdentity` | main.py:50 | excluding the strict entries by identity leaves exactly the genre matches that are not strict matches |
| `Corrected.GenreSplits` | main.py:35-50 | the genre matches split into the strict matches and the genre-only matches |
| `Corrected.RankStrict` | main.py:43-47 | with the fix: the top eight strict entries, each scored against its own matrix row, no position twice |
| `Corrected.Backfill` | main.py:49-59 | with the fix: the strict entries, then the top genre-only entries by their own scores; min(8, m) picks in all, where m is the number of genre matches, also when no genre-only match is left; no position twice |
| `Corrected.GetRecommendations` | main.py:34-61 | with the fix: at most eight picks, each a genre match named by its true catalog position, each score that row's own score, no row twice, and the branch results above |
| `Findings.StrictScoresShifted` | main.py:41-47 | for catalog [other genre] followed by eight strict rows, the written routine takes the strict branch and one of its eight records carries the score of matrix row 0, the row of the other-genre film |
| `Findings.CorrectedStrictScores` | main.py:41-47 | for that catalog the corrected routine returns eight picks, each scored against its own row, none with row 0's score |
| `Findings.BackfillDropsWrongRow` | main.py:49-50 | for catalog [old genre match, strict row], the written backfill holds the strict row and drops the genre match; the corrected backfill is the genre match |
| `Findings.RepeatedRecommendation` | main.py:49-57 | for that catalog the written routine recommends the strict row twice, once unscored and once with the score of matrix row 0, which is the row of the other film, whose combined text differs from the strict row's |
| `Findings.CorrectedRecommendation` | main.py:49-57 | for that catalog the corrected routine recommends the strict row and then the other genre match |
| `Findings.NoGenreMatchFails` | main.py:49-51 | for catalog [other genre] the backfill frame is empty and the written routine fails |
| `Findings.EarlyGenreMatchFails` | main.py:49-51 | for catalog [strict row] the one genre match sits at position 0 < k = 1, the backfill frame is empty and the written routine fails |
| `Findings.ServerErrorWithoutMatch` | main.py:111-117 | a complete request whose genre matches no catalog row is answered with status 500 and no records |
| `Findings.CorrectedWithoutMatch` | main.py:49-59 | for catalog [other genre] the corrected routine answers no picks |
| `Findings.CorrectedEarlyMatch` | main.py:49-59 | for catalog [strict row] the corrected routine answers the strict row, unscored |
| `Api.Admit` | main.py:80-109 | 403 if and only if a key is configured and the supplied key differs from it; otherwise 400 if and only if any of year, runtime, genre, rating, votes is absent; otherwise a query with the given fields and director and star defaulting to "" |
| `Api.NoConfiguredKeyAdmitsAnyKey` | main.py:80-81 | with no configured key the supplied key makes no difference and no request is refused for it |
| `Api.ConfiguredKeyMustMatch` | main.py:80-81 | with a configured key, a request is refused if and only if it does not carry that key |
| `Api.AdmittedQueryText` | main.py:89-109 | an admitted query's text is genre, space, director or "", space, star or "" |
| `Api.Predict` | main.py:75-117 | status 403 or 400 under the gate's conditions; for an admitted query, 500 if and only if the recommender fails and 200 otherwise; no recommendations unless 200; with 200, at most eight records, all matching the query genre, and exactly the records `Recommender.GetRecommendations` promises for the branch the strict count selects |

## Left out

- Flask routing, the `/check` health endpoint, `jsonify`, `to_dict` key layout, `print` and `app.run`: transport and I/O.
- Reading the CSV file and the no-op `df.head()`: start-up file I/O. The catalog is a parameter.
- TF-IDF fitting, stop-word removal and cosine similarity: floating-point library internals. They are replaced by the parameter `sim`. Only their failure on a matrix without rows is modelled.
- The regular-expression reading of `str.contains`: the query genre is taken to hold no regex metacharacters. Case folding is ASCII only; Unicode case folding is not modelled.
- NaN and missing values in catalog columns. The handler's lack of type checks on field values is not modelled.
- Api.Admit: treats a JSON `null` like an absent field. For year, runtime, genre, rating and votes the handler does the same. For director and star it does not: `data.get('director', '')` returns `None` for an explicit `null`, and main.py:109 then builds no valid combined text. That request is not modelled.
- The environment-variable lookup and the JSON parsing themselves. Only the decisions at main.py:80 and main.py:93 are modelled.
- Columns the core does not read are not carried in `Row`. Floating-point rounding is not modelled: runtime, rating and scores are `real`.
- The unused imports (tensorflow, pickle, pad_sequences, numpy).
- Recommender.GetRecommendations: does not fix the order of rows with equal scores, because pandas' default sort is not stable. Any descending order of ties satisfies the contract; `Ranking.TopScoresAgree` shows that every admissible result carries the same sequence of scores.

## Findings

| source | as written | input that shows it | evidently intended | confidence | as-written member | corrected member |
|---|---|---|---|---|---|---|
| main.py:44 | `tfidf_matrix[filtered_data.index]` runs after `reset_index(drop=True)`, so strict candidate i is scored against matrix row i, not its own row | catalog [row of another genre] followed by eight strict rows: one of the eight records carries the score of matrix row 0 | each candidate is scored against its own catalog row | not executed | `Findings.StrictScoresPositional`, `Findings.StrictScoresShifted` | `Corrected.RankStrict`, `Findings.CorrectedStrictScores` |
| main.py:51 | `tfidf_matrix[additional_data.index]` runs after `reset_index(drop=True)`, so backfill candidate i is scored against matrix row i | catalog [old genre match, strict row]: the strict row (catalog row 1) is backfilled with the score of matrix row 0 | each candidate is scored against its own catalog row | not executed | `Findings.BackfillScoresPositional`, `Findings.RepeatedRecommendation` | `Corrected.Backfill`, `Findings.CorrectedRecommendation` |
| main.py:50 | `~index.isin(filtered_data.index)` compares catalog positions with the renumbered positions 0..k-1, so the backfill drops genre matches at positions below k and keeps strict rows | catalog [old genre match, strict row]: the result is the strict row twice, and the other genre match is never offered | the backfill leaves out exactly the strict rows; the result has min(8, m) distinct rows | not executed | `Recommender.Backfill`, `Findings.RepeatedRecommendation` | `Corrected.Backfill`, `Corrected.ExclusionByIdentity`, `Findings.CorrectedRecommendation` |
| main.py:51 | the backfill frame is scored even when it is empty; `cosine_similarity` rejects a matrix without rows, so the request fails with status 500 | catalog [row of another genre] (no genre match), or catalog [strict row] (the only genre match sits before position k = 1) | an empty backfill adds no rows: the answer is the strict rows, with status 200 | not executed; rests on scikit-learn requiring at least one sample, which is outside this model | `Recommender.GetRecommendations`, `Findings.NoGenreMatchFails`, `Findings.EarlyGenreMatchFails`, `Findings.ServerErrorWithoutMatch` | `Corrected.GetRecommendations`, `Findings.CorrectedWithoutMatch`, `Findings.CorrectedEarlyMatch` |
