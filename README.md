# PopcornPicks recommendation core in Dafny

PopcornPicks is a movie recommender. A user picks up to five movies on a
search page. The page posts them to a Flask `/predict` route, which answers
with at most ten similar titles. This project models the parts of that path
that decide what gets recommended, and proves properties of them:

- **`MovieRecommender`** (`src/prediction_scripts/model.py`). It loads the
  movies table, drops duplicate rows and turns each `|`-separated genres field
  into a set. `recommend(title, n)` scores every row by the number of genres it
  shares with the first row of that title. It stores the scores as the
  `similarity_score` column and returns the `n` best other rows, or a
  "not found" message. Module `PredictionModel`: a class with the table and the
  column as fields, plus specification functions over the rows.
- **`predict`** (`src/recommenderapp/app.py`). For each input title it ranks
  that title's similarity row, skips position 0 as "the movie itself" and adds
  the titles at positions 1 to 3 to a set. It removes the input titles and
  returns up to ten of the rest. Module `RecommenderApp`: methods with loops,
  proved against specification functions (`Contribution`, `Gathered`, `Pool`).
- **The utilities** in `src/recommenderapp/utils.py`: `create_colored_tags`,
  `beautify_feedback_data` and `create_movie_genres`. Module `Utils`: one method
  per loop, each proved equal to a specification function.
- **The search page** (`frontend/src/app/search/page.tsx`): the
  `selectedMovies`, `searchResults` and `alertState` state, the select and
  remove handlers, and the guards of the search and predict handlers. Module
  `SearchPage`: class `SearchPageState`.

Shared modules:

- `Text`: Python's `str.split` and `str.join` on one character, with both
  round trips proved.
- `Ranking`: a stable descending sort by score, as Python's
  `sorted(..., reverse=True)` is.
- `Sets`: two cardinality facts.
- `Options`: an `Option` type.

`predict` builds a Python `set` and returns `list(set)[:10]`, so the titles
come in the set's order. The model leaves that order unspecified (`ListSet`
picks elements by `:|`), and `Predict` promises only which titles can appear
and how many.

## Model

| member | source | states |
|---|---|---|
| Text.Split | src/prediction_scripts/model.py:27 | `str.split('|')` always yields at least one piece, and no piece contains the separator |
| Text.JoinSplit | src/recommenderapp/utils.py:98 | joining the pieces of a split with the separator gives back the original field |
| Text.SplitJoin | src/recommenderapp/utils.py:98 | splitting a join of separator-free pieces gives back exactly those pieces |
| Text.JoinAppend | src/recommenderapp/utils.py:57 | joining a concatenation of two non-empty lists is the two joins with one separator between them |
| Ranking.SortByScore | src/recommenderapp/app.py:265-269 | the sort keeps the length and the multiset of (position, score) pairs, and scores never increase along the result |
| Ranking.RankedRow | src/recommenderapp/app.py:265-269 | the sorted enumeration is a permutation of the row, ordered by descending score and then ascending position (stability) |
| Ranking.RankingIsUnique | src/recommenderapp/app.py:265-269 | any ordering of the row's pairs by descending score and then ascending position is exactly the sorted result |
| Ranking.StrictlyRankedUnique | src/recommenderapp/app.py:265-269 | two lists with the same elements, both ordered by (score descending, position ascending), are equal |
| Ranking.SortedIsFixed | src/recommenderapp/app.py:265-269 | the stable sort leaves an already ranked list as it is, so sorting twice is sorting once |
| Ranking.SortedPrefixIsBest | src/prediction_scripts/model.py:50-51 | an element left out of the first `h` sorted elements scores no higher than any of them |
| Ranking.PrefixIsBestByCount | src/prediction_scripts/model.py:50-51 | when the first `h` elements of a non-increasing list hold fewer copies of an element than the whole list, that element scores no higher than any of the first `h` |
| PredictionModel.DropDuplicates | src/prediction_scripts/model.py:25 | `drop_duplicates` keeps exactly the rows that occur in the input, no more and no fewer |
| PredictionModel.DropDuplicatesDistinct | src/prediction_scripts/model.py:25 | after `drop_duplicates` no two rows are equal |
| PredictionModel.DropDuplicatesKeepsFirstInOrder | src/prediction_scripts/model.py:25 | the kept rows appear in the order of their first occurrences in the input |
| PredictionModel.GenreSet | src/prediction_scripts/model.py:27 | `set(x.split('|'))` holds only separator-free genre names |
| PredictionModel.GenreSetOfJoined | src/prediction_scripts/model.py:27 | a field written as `|`-joined genre names reads back as exactly that set of names |
| PredictionModel.GenreSetCoversField | src/prediction_scripts/model.py:27 | the genre set holds exactly the pieces of the field, and those pieces rebuild the field |
| PredictionModel.PreparedTable | src/prediction_scripts/model.py:24-27 | every raw row appears in the prepared table with its genres as a set, and every prepared row comes from a raw row; one row per deduplicated row |
| PredictionModel.TitleIndex | src/prediction_scripts/model.py:44 | `.iloc[0]` of the title filter: the first row with that title, or none when no row has it |
| PredictionModel.SimilarityScore | src/prediction_scripts/model.py:47 | the shared-genre count is at most the size of either genre set |
| PredictionModel.Candidates | src/prediction_scripts/model.py:50 | every candidate is the (title, score) of a row whose title differs from the query |
| PredictionModel.CandidatesExcludeTitle | src/prediction_scripts/model.py:50 | no candidate carries the queried title |
| PredictionModel.CandidatesCount | src/prediction_scripts/model.py:50 | there is one candidate per row whose title differs |
| PredictionModel.CandidatesComplete | src/prediction_scripts/model.py:50 | every row whose title differs is a candidate |
| PredictionModel.OtherRowIndices | src/prediction_scripts/model.py:50 | the rows the title filter keeps: every row whose title differs, each once, in ascending position |
| PredictionModel.CandidatesFollowRows | src/prediction_scripts/model.py:50 | the filter keeps table order and takes each row once: the k-th candidate is the (title, score) of the k-th row whose title differs |
| PredictionModel.TopCandidatesFromCandidates | src/prediction_scripts/model.py:50-51 | `head(n)` of the sorted candidates is a sub-multiset of the candidates: no candidate is taken more often than it occurs |
| PredictionModel.RecommendEntriesOncePerRow | src/prediction_scripts/model.py:44-55 | the entries are a sub-multiset of the other rows' (title, overlap) entries taken one per row, so no row is listed twice |
| PredictionModel.RecommendNotFound | src/prediction_scripts/model.py:44-58 | the result is the "Movie '<title>' not found in database." message exactly when no row has the title |
| PredictionModel.RecommendExcludesQuery | src/prediction_scripts/model.py:50 | no returned entry has the queried title |
| PredictionModel.RecommendLength | src/prediction_scripts/model.py:50-51 | the list has `head(n)` of the rows whose title differs, so min(n, count) entries for n >= 0 |
| PredictionModel.RecommendOrdered | src/prediction_scripts/model.py:50 | similarity scores never increase along the returned list |
| PredictionModel.TopEntriesAreRows | src/prediction_scripts/model.py:50-55 | each top entry is the (title, score) of a row whose title differs |
| PredictionModel.TopEntriesAreBest | src/prediction_scripts/model.py:50-51 | a row whose title differs is either among the top entries or scores no higher than every entry; counting copies, any (title, score) entry with fewer copies in the top than among the candidates scores no higher than every top entry |
| PredictionModel.RecommendEntriesAreScoredRows | src/prediction_scripts/model.py:44-55 | each entry is another row's title with that row's genre overlap with the target, between 0 and the target's genre count |
| PredictionModel.RecommendTopScores | src/prediction_scripts/model.py:47-51 | the list holds the best-scoring rows: any other row is listed with its score or scores no higher than every entry; counting copies, a row left out while an equal entry is listed (fewer copies in the list than among the other rows) scores no higher than every entry |
| PredictionModel.RecommendExample | src/prediction_scripts/model.py:30-60 | on rows A {Action, Adventure}, B {Action, Comedy}, C {Drama}, the top two for A are B with 1 and then C with 0 |
| PredictionModel.MovieRecommender.constructor | src/prediction_scripts/model.py:10-12 | a new recommender has no table yet and no score column |
| PredictionModel.MovieRecommender.PrepareData | src/prediction_scripts/model.py:15-27 | the table becomes the deduplicated rows with genre sets, and any old score column is gone |
| PredictionModel.MovieRecommender.Recommend | src/prediction_scripts/model.py:30-60 | returns the specified outcome; rows never change; the score column is written only when the title is found |
| RecommenderApp.RowIndex | src/recommenderapp/app.py:262 | `.index[0]`: the first row with the title, or none (the IndexError path) exactly when the title is absent |
| RecommenderApp.Slice | src/recommenderapp/app.py:272 | Python's clamped slice: exactly min(hi, len) - lo elements when lo < min(hi, len), none otherwise, each taken from its position `lo + k` |
| RecommenderApp.UsablePicks | src/recommenderapp/app.py:272-275 | picks are added until the first one past the catalogue, whose IndexError ends that title's loop |
| RecommenderApp.ContributionBounded | src/recommenderapp/app.py:272-273 | one input title adds at most three titles, all from the catalogue |
| RecommenderApp.GatheredAppend | src/recommenderapp/app.py:259-275 | the set gathered over two parts of the input is the union of the two parts' sets |
| RecommenderApp.SkipsUnknownTitle | src/recommenderapp/app.py:274-275 | an input title not in the catalogue changes nothing |
| RecommenderApp.GatheredBounded | src/recommenderapp/app.py:256-275 | at most three titles per input, all from the catalogue |
| RecommenderApp.NeighboursRanked | src/recommenderapp/app.py:265-273 | positions 1 to 3 hold three entries (or all but one for short rows); they are ranked, outranked by position 0, and outrank every other position |
| RecommenderApp.SkippedIsQueryIff | src/recommenderapp/app.py:272 | the skipped position 0 is the queried row exactly when it outranks every other row; an earlier row with an equal score is skipped in its place |
| RecommenderApp.PoolOfOne | src/recommenderapp/app.py:278 | for one input title, the response is drawn from that title's picks minus the title itself |
| RecommenderApp.AddNeighbours | src/recommenderapp/app.py:260-275 | one pass of the loop adds exactly that title's contribution to the set |
| RecommenderApp.AddPicks | src/recommenderapp/app.py:272-275 | the inner loop adds the titles of the picks before the first one past the catalogue, where the IndexError ends it |
| RecommenderApp.GatherRecommendations | src/recommenderapp/app.py:256-275 | the loop builds the specified set, of at most three titles per input, all from the catalogue |
| RecommenderApp.ListSet | src/recommenderapp/app.py:278 | `list(set)` lists every element once and nothing else |
| RecommenderApp.FirstTitles | src/recommenderapp/app.py:278-281 | `list(pool)[:10]` gives min(|pool|, 10) distinct titles of the pool |
| RecommenderApp.Predict | src/recommenderapp/app.py:245-284 | 400 with "No movies provided" exactly when no titles are given; otherwise min(|pool|, 10) distinct catalogue titles, none of them an input title |
| Utils.CreateColoredTags | src/recommenderapp/utils.py:23-57 | the tags joined by single spaces; empty input gives "", one genre gives its tag alone |
| Utils.TagShape | src/recommenderapp/utils.py:29-55 | a listed genre gets its own colour, any other genre `#CCCCCC`, and the genre text sits unchanged inside the span |
| Utils.ColoredTagsAppend | src/recommenderapp/utils.py:57 | the HTML for two non-empty genre lists is their two HTML strings joined by one space |
| Utils.BeautifyFeedbackData | src/recommenderapp/utils.py:60-85 | exactly the keys "Liked", "Disliked", "Yet to Watch", holding the movies with status "Like", "Dislike" and "Yet to watch" in iteration order |
| Utils.WithStatusMembership | src/recommenderapp/utils.py:70-76 | a movie is listed under a status exactly when the data pairs it with that status |
| Utils.WithStatusAppend | src/recommenderapp/utils.py:70-76 | each category keeps iteration order: a part iterated first is listed first |
| Utils.CategoriesDisjoint | src/recommenderapp/utils.py:70-76 | with one status per movie, no movie is in two categories, and a movie with any other status is in none |
| Utils.CreateMovieGenres | src/recommenderapp/utils.py:88-100 | the loop builds the specified title-to-genres dictionary |
| Utils.MovieGenresKeys | src/recommenderapp/utils.py:96-99 | the keys are exactly the titles of the table |
| Utils.MovieGenresLastRowWins | src/recommenderapp/utils.py:96-99 | a title maps to the split genres of its last row, order and repeats kept, and joining them gives back that field |
| SearchPage.SelectAppendsNew | frontend/src/app/search/page.tsx:63-76 | selecting appends a new movie when fewer than five are chosen, and otherwise leaves the selection unchanged |
| SearchPage.WithoutMembership | frontend/src/app/search/page.tsx:78-80 | `filter` keeps exactly the other movies |
| SearchPage.WithoutAppend | frontend/src/app/search/page.tsx:78-80 | `filter` keeps the order of the remaining movies |
| SearchPage.WithoutWellFormed | frontend/src/app/search/page.tsx:78-80 | removing never lengthens the selection and adds no repeats |
| SearchPage.RunWellFormed | frontend/src/app/search/page.tsx:63-80 | any run of selections and removals keeps at most five movies, none twice |
| SearchPage.BlankIffAllWhitespace | frontend/src/app/search/page.tsx:38 | `!query.trim()` holds exactly when every character is JavaScript white space |
| SearchPage.SearchPageState.constructor | frontend/src/app/search/page.tsx:21-30 | the page starts with no selection, no results and the alert hidden |
| SearchPage.SearchPageState.HandleSearch | frontend/src/app/search/page.tsx:37-52 | a blank query clears the results and sends nothing; any other query is sent unchanged; the selection never changes |
| SearchPage.SearchPageState.HandleMovieSelect | frontend/src/app/search/page.tsx:63-76 | with five selected, only the alert changes; otherwise a new movie is appended and the results are cleared; at most five, none twice |
| SearchPage.SearchPageState.RemoveSelectedMovie | frontend/src/app/search/page.tsx:78-80 | the selection loses every occurrence of the movie and keeps the rest in order; nothing else changes |
| SearchPage.SearchPageState.HandlePredict | frontend/src/app/search/page.tsx:92-109 | with nothing selected it shows "Please select at least one movie" and sends nothing; otherwise it sends the selection as it is |

## Left out

- Reading files is not modelled: the CSV in `prepare_data`, and the pickled
  table and matrix in `load_models`. They become parameters: the raw rows, the
  list of catalogue titles and the matrix rows.
- `PorterStemmer` and `CountVectorizer` are built in `MovieRecommender.__init__`
  but never used. The unused `ratings_path` parameter is dropped too.
- Missing or non-string genres cells (NaN) are not modelled. Neither is the
  `AttributeError` `prepare_data` would raise on them.
- PredictionModel.MovieRecommender.Recommend: calling `recommend` before
  `prepare_data` raises `AttributeError` in the source. The model does not
  model that error; it requires `prepared` instead.
- PredictionModel.RecommendFor: pandas `sort_values` does not promise an order
  among equal scores. The model sorts stably. The lemmas state only what every
  tie order satisfies: sorted (`RecommendOrdered`), no row twice
  (`RecommendEntriesOncePerRow`), the best rows kept, counting rows that share
  a title and score one by one (`RecommendTopScores`), and the length
  (`RecommendLength`).
- The index labels of both tables are taken to equal row positions, so
  `.index[0]` and `.iloc[i]` name the same row. With a gap in the labels the
  source could pick other rows.
- Similarity scores are integers here. The source's cosine similarities are
  floats, and the proofs use only that scores are totally ordered.
- RecommenderApp.Predict: the 500 path is not modelled. That covers a request
  with no JSON body, tables that failed to load and any other exception.
  `requestMovies == None` stands for a body without a `movies` key, which the
  source treats as an empty list.
- RecommenderApp.Predict: the order of the returned titles is the set's hash
  order. The contract says which titles can appear, that none repeats and how
  many there are, but not their order.
- The Flask JSON encoding, HTTP status codes and CORS are outside the model.
  The other routes of `app.py` are too.
- The parts of `utils.py` that use the database or e-mail are outside the
  model: accounts, friends, reviews, wall posts and `send_email`.
- The search page's `fetch` calls, `getRecentMovies`, loading flags, routing and
  rendering are not modelled. `HandleSearch` and `HandlePredict` return the
  request they would send. Their response and error branches (`setSearchResults`,
  `setPredictedMovies`, the error alerts) are left out.
- React state updates are modelled as immediate field assignments. Batching
  and stale closures are not modelled.
- Python dictionaries are modelled as sequences of (key, value) pairs in
  insertion order with distinct keys (`Utils.Feedback`), or as Dafny maps when
  only lookups matter (`Utils.MovieGenres`, `Utils.BeautifyFeedbackData`). The
  key order of those two results ("Liked", "Disliked", "Yet to Watch" for the
  feedback dictionary) is not modelled.
