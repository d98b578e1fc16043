# Movie Recommendation System — a Dafny model of its core

The system is a movie recommender with two front ends.

- `movie_recommender.py` is built around the `MovieRecommender` object. It keeps the user's liked movies and a capped search history. From these it builds a personalised list:
  - counts the languages the user searched and keeps those searched at least twice, most frequent first;
  - adds the languages of liked movies;
  - collects candidate movies per language, per genre and from trending;
  - drops duplicates and movies already viewed;
  - scores each candidate by liked-genre matches, language rank and genre matches;
  - returns the best `top_n` after a stable sort.

  It also builds the feature string used for content similarity, and pages every result list ten items at a time behind Previous / Next buttons.
- `app.py` recommends by a precomputed similarity matrix:
  - sorts the title's similarity row, skips the top-ranked entry (normally the title itself) and takes the next 30;
  - re-ranks them by rating and keeps `num_movies`;
  - shows each with a poster, replacing a missing poster by a placeholder image.

  Its "Trending Now" panel shows a sliding window of ten top-rated titles. Each Refresh moves the window on by ten, wrapping around.

The model is split into these modules:

| module | contents |
|---|---|
| `PyLists` | the Python list semantics the code relies on: slicing with negative and out-of-range bounds, `list.index`, counting, first-occurrence de-duplication with a `seen` set |
| `StableSort` | `sort(key=…, reverse=True)` as a stable insertion sort, proved sorted, a permutation and stable |
| `Catalog` | the TMDb records the core reads |
| `FeatureString` | `create_feature_string` |
| `HistoryRanking` | the stages of `get_recommendations_from_history`, each a method proved against a specification function |
| `Recommender` | the liked table, the search history and the `MovieRecommender` class whose methods update them; the whole history recommendation and its lemma |
| `Pagination` | page arithmetic and the page counters |
| `Posters` | poster normalisation |
| `Trending` | the trending window and the offset counter, with Python's floor modulo written out |
| `SimilarityRecommend` | `recommend` of `app.py` |

All network lookups are parameters of the model. The catalogue's answers are independent functions. In the program, the trending request for a language is the same discover request as the first page for that language, so when both requests get the same answer, its ten entries already sit among the first fifteen language candidates and are de-duplicated away. Every lemma holds for any catalogue, so this overlap is covered without being assumed:
- TMDb details and lists are a `Catalogue` value or a `fetch` function;
- OMDb posters are a `fetch` function.

Two choices that Python makes by iterating a `set` are also parameters: `viewedOrder` for `list(set(all_movie_ids))` and `genreOrder` for `list(user_genres)`. The model takes the last ten of `viewedOrder` and the first two of `genreOrder`, as the source does.

The score terms computed in floating point (popularity, rating and release year) are one integer-valued function `extra`.

A negative language score is possible. The language bonus `10 - 2 * rank` falls below zero from rank 6 on (`HistoryRanking.LanguagePointsAtRank`). Liked movies can lengthen the preferred list far enough for this to happen. The model keeps the formula as written.

The trending start is `offset % (len - 10)`, so the window never reaches the last ranked title, and exactly ten titles divide by zero (`Trending.TrendingWindowSpec`). The model keeps this too.

## Model

| member | source | states |
|---|---|---|
| PyLists.SliceBound | movie_recommender.py:564 | a slice bound is normalised as Python does: a negative bound counts from the end, then it is clamped into 0..len |
| PyLists.PySlice | movie_recommender.py:186 | a Python slice is never longer than the list, equals the plain sub-sequence whenever the bounds lie in range, and `s[-n:]` is the last min(n, len) elements |
| PyLists.IndexOf | movie_recommender.py:654 | `list.index(x)` of a present x is the first position holding x |
| PyLists.Take | movie_recommender.py:681 | `s[:n]` is the first min(n, len) elements for n ≥ 0, and drops elements from the end for negative n |
| PyLists.CountPositive | movie_recommender.py:552-555 | a value occurs a positive number of times exactly when it is in the list |
| PyLists.RemoveFacts | movie_recommender.py:167-168 | deleting a key from the insertion order removes exactly that key, keeps the order duplicate-free and changes nothing when the key is absent |
| PyLists.Dedup | movie_recommender.py:628-633 | defined by its body: the first element of each key not yet seen, in list order; see `PyLists.DedupFacts` and `PyLists.DedupKeepsFirst` |
| PyLists.DedupFacts | movie_recommender.py:628-633 | the loop that skips ids already in `seen_ids` keeps only unseen elements, represents every unseen key, and never keeps a key twice |
| PyLists.DedupLength | movie_recommender.py:628-633 | de-duplication never lengthens the list |
| PyLists.DedupKeepsFirst | movie_recommender.py:628-633 | each kept element is the first element with its key, and the kept elements keep their original order |
| StableSort.SortDesc | movie_recommender.py:680 | defined by its body (insertion sort); see `StableSort.SortDescSorted`, `StableSort.SortDescStable` and `StableSort.SortDescPrefixBest` |
| StableSort.SortDescSorted | movie_recommender.py:680 | `sort(key=k, reverse=True)` yields a list ordered by non-increasing key that is a permutation of its input |
| StableSort.SortDescStable | movie_recommender.py:680 | elements with equal keys appear in the same relative order as in the input (Python's sort is stable) |
| StableSort.SortDescTiesRanked | movie_recommender.py:560 | stability stated through a rank that increases along the input: equal keys come out in increasing rank |
| StableSort.SortDescMembers | movie_recommender.py:680 | sorting neither adds nor loses an element |
| StableSort.SortDescDistinctKeys | movie_recommender.py:680 | ids that are pairwise different before the sort stay pairwise different after it |
| StableSort.WithKeyPrefix | app.py:186 | a prefix of a list keeps the elements of each key in a prefix of that key's elements |
| StableSort.InsertMultiset | movie_recommender.py:680 | inserting one element into the sorted part adds that element and nothing else |
| StableSort.InsertSorted | movie_recommender.py:680 | inserting into a list ordered by non-increasing key keeps it ordered |
| StableSort.InsertWithKey | movie_recommender.py:680 | an inserted element goes in front of the elements with its own key |
| StableSort.InsertDistinctKeys | movie_recommender.py:680 | inserting an element with a new id keeps the ids distinct |
| StableSort.InsertTiesRanked | movie_recommender.py:560 | inserting an element with a lower rank than every other element keeps ties in rank order |
| StableSort.WithKeyCons | movie_recommender.py:680 | the elements with a key of a list with one more element in front are that element, when its key matches, then those of the rest |
| StableSort.InsertBounded | movie_recommender.py:680 | inserting into a list whose keys are bounded by b keeps every key bounded by b when the new key is |
| StableSort.ConsSorted | movie_recommender.py:680 | an element whose key bounds a sorted list may be put in front of it |
| StableSort.InsertLength | movie_recommender.py:680 | inserting adds exactly one element |
| StableSort.SortDescLength | movie_recommender.py:680 | the sort keeps the length |
| StableSort.SortDescMultiset | movie_recommender.py:680 | the sort is a permutation |
| StableSort.SortDescOrdered | movie_recommender.py:680 | the sort orders by non-increasing key |
| FeatureString.GenreNames | movie_recommender.py:516-517 | one genre name per genre, in order |
| FeatureString.DirectorsExactly | movie_recommender.py:524-526 | the director names are exactly the names of the crew members whose job is "Director" |
| FeatureString.PartBounds | movie_recommender.py:519-530 | at most 10 keywords and at most 5 cast members are used, each a prefix of its list, and every director listed has the job "Director" |
| FeatureString.SplitJoinSpaced | movie_recommender.py:536 | splitting the space-joined words at spaces gives back the words when none of them contains a space |
| FeatureString.JoinSpacedAppend | movie_recommender.py:536 | joining two non-empty lists of words is joining each and putting one space between them |
| FeatureString.CreateFeatureString | movie_recommender.py:511-536 | the feature string is genres, keywords, directors, cast and overview, in that order, joined by single spaces |
| HistoryRanking.LangKeys | movie_recommender.py:552-555 | the language keys of a list are its elements |
| HistoryRanking.CountLanguages | movie_recommender.py:552-555 | the counting loop builds the dictionary of non-empty language codes with their number of occurrences, with keys in first-search order |
| HistoryRanking.LanguageOrderFirst | movie_recommender.py:552-555 | the dictionary's keys are exactly the non-empty codes searched, ordered by their first search |
| HistoryRanking.FrequentMembers | movie_recommender.py:558 | the comprehension keeps exactly the codes counted at least twice |
| HistoryRanking.FrequentRanked | movie_recommender.py:558 | the comprehension keeps the dictionary's order |
| HistoryRanking.RankedCons | movie_recommender.py:558 | a code ranked before every kept code may be put in front of them without breaking the rank order |
| HistoryRanking.PreferredMembers | movie_recommender.py:552-560 | a language is preferred exactly when it is a non-empty code searched at least twice |
| HistoryRanking.PreferredKey | movie_recommender.py:560 | the sort key of a preferred language is its number of searches |
| HistoryRanking.PreferredByCount | movie_recommender.py:558-560 | preferred languages are ordered by non-increasing number of searches |
| HistoryRanking.PreferredTies | movie_recommender.py:558-560 | equally frequent languages keep the order of their first search, and no language is listed twice |
| HistoryRanking.FetchedDetailsFacts | movie_recommender.py:564-567 | the fetched details are exactly those that a lookup found, and there are at most as many as ids |
| HistoryRanking.FetchedSnoc | movie_recommender.py:565-567 | one more id looked up adds its details exactly when the lookup answers |
| HistoryRanking.LikedStep | movie_recommender.py:571-578 | one more liked entry adds its movie data and its id for the details lookup exactly when the entry has data |
| HistoryRanking.GatherDetails | movie_recommender.py:563-578 | recent details are those found for the viewed ids, then those found for liked movies that have data; the liked movie data is collected in liked order |
| HistoryRanking.CollectLikedGenres | movie_recommender.py:636-639 | the liked genres are the union of the genre ids of all liked movies |
| HistoryRanking.ExtendPreferredFacts | movie_recommender.py:589-595 | extending the preferred languages keeps them as a prefix, adds exactly the non-empty languages of liked movies and keeps the list duplicate-free |
| HistoryRanking.AppendDistinct | movie_recommender.py:594-595 | appending new, pairwise different codes to a duplicate-free list keeps it duplicate-free |
| HistoryRanking.LikedProfileStep | movie_recommender.py:589-595 | one more liked movie adds its genres and appends its language exactly when that is non-empty and not yet preferred |
| HistoryRanking.RecentGenresStep | movie_recommender.py:597-600 | one more details record adds the ids of the genres it lists |
| HistoryRanking.GenreIdsStep | movie_recommender.py:599-600 | one more genre adds its id |
| HistoryRanking.BuildProfile | movie_recommender.py:584-603 | the profile loops produce the extended preferred languages and the union of liked and recently viewed genres |
| HistoryRanking.LanguagePoolBound | movie_recommender.py:609-611 | the language queries contribute at most 15 movies per language |
| HistoryRanking.GenrePoolBound | movie_recommender.py:616-618 | the genre queries contribute at most 10 movies per genre |
| HistoryRanking.PoolBound | movie_recommender.py:606-625 | the candidate pool holds at most 2·15 + 2·10 + 10 = 60 movies |
| HistoryRanking.CandidatePool | movie_recommender.py:606-625 | defined by its body; see `HistoryRanking.PoolBound` and `HistoryRanking.AssemblePool` |
| HistoryRanking.AssemblePool | movie_recommender.py:606-625 | the pool loops produce the language, genre and trending candidates in that order |
| HistoryRanking.LanguagePoolStep | movie_recommender.py:609-611 | one more language adds the first 15 of its entries |
| HistoryRanking.GenrePoolStep | movie_recommender.py:616-618 | one more genre adds the first 10 of its entries |
| HistoryRanking.DedupCandidates | movie_recommender.py:628-633 | the de-duplication loop is first-occurrence de-duplication seeded with the viewed ids |
| HistoryRanking.UniqueCandidates | movie_recommender.py:628-633 | no unique candidate was viewed, no id appears twice, and every unviewed id of the pool is represented |
| HistoryRanking.UniqueFirstOccurrences | movie_recommender.py:628-633 | each unique candidate is the first pool entry with its id, in pool order |
| HistoryRanking.FirstAt | movie_recommender.py:631 | an id not seen earlier in the list is first found at its own position |
| HistoryRanking.BaseScore | movie_recommender.py:644-660 | defined by its body: the liked-genre, language and genre terms; see `HistoryRanking.LanguagePointsAtRank` and `HistoryRanking.AddGenreScore` |
| HistoryRanking.TotalScore | movie_recommender.py:641-675 | defined by its body: the base score plus the floating-point terms as `extra`; see `HistoryRanking.ScoredFacts` and `HistoryRanking.SelectTopBest` |
| HistoryRanking.LanguagePointsAtRank | movie_recommender.py:650-655 | the language at rank r of a duplicate-free preferred list earns 10 − 2r points, which is negative from rank 6 on |
| HistoryRanking.MatchesWithGenre | movie_recommender.py:647 | listing one more genre adds one match exactly when the genre is in the set |
| HistoryRanking.AddGenreScore | movie_recommender.py:644-660 | one more genre adds 8 points if it is liked and 5 if it is a user genre, and nothing else |
| HistoryRanking.Scored | movie_recommender.py:641-677 | defined by its body; see `HistoryRanking.ScoreCandidates` and `HistoryRanking.ScoredFacts` |
| HistoryRanking.ScoreCandidates | movie_recommender.py:641-677 | the scoring loop pairs each unique candidate, in order, with its score |
| HistoryRanking.ScoredStep | movie_recommender.py:641-677 | one more candidate adds the pair of its score and itself |
| HistoryRanking.MoviesOf | movie_recommender.py:681 | `[movie for score, movie in …]` keeps the movies in order |
| HistoryRanking.ScoredFacts | movie_recommender.py:677-680 | after sorting, every pair still holds a candidate with its own score, and none is lost |
| HistoryRanking.SelectTop | movie_recommender.py:680-681 | defined by its body; see `HistoryRanking.SelectTopRanked`, `HistoryRanking.SelectTopBest` and `HistoryRanking.SelectTopStable` |
| HistoryRanking.SelectTopRanked | movie_recommender.py:680-681 | the result holds min(top_n, candidates) movies in non-increasing order of score; they are drawn from the candidates (as a multiset), and no candidate left out scores above a kept one |
| HistoryRanking.SelectTopBest | movie_recommender.py:680-681 | the selection is drawn from the candidates, and no candidate left out scores above a kept one |
| HistoryRanking.InsertMovies | movie_recommender.py:680 | inserting a scored pair into the sorted part adds its movie and nothing else |
| HistoryRanking.SortDescMovies | movie_recommender.py:680 | sorting the scored pairs permutes their movies |
| HistoryRanking.PairsPrefixBest | movie_recommender.py:680-681 | a prefix of score-ordered pairs whose movies permute the candidates keeps the best scored candidates |
| HistoryRanking.SelectTopStable | movie_recommender.py:680-681 | the result has no id twice, and equally scored movies keep their candidate order |
| HistoryRanking.SelectTopDistinct | movie_recommender.py:680-681 | with duplicate-free candidate ids, the result has no id twice |
| HistoryRanking.SelectTopTies | movie_recommender.py:680-681 | with duplicate-free candidate ids, equally scored movies keep their candidate order |
| Recommender.ModeOrUnknown | movie_recommender.py:161 | `mode or 'Unknown'` is never empty, is the mode when it is non-empty, and is "Unknown" otherwise |
| Recommender.LikedTable.Items | movie_recommender.py:571-572 | the liked items follow the dictionary's insertion order, each with its movie data |
| Recommender.EmptyTable | movie_recommender.py:540 | the liked dictionary is empty exactly when its items loop sees nothing |
| Recommender.Like | movie_recommender.py:156-162 | defined by its body; see `Recommender.LikeFacts`, `Recommender.LikeOverwrites` and `Recommender.UnlikeUndoesLike` |
| Recommender.LikeFacts | movie_recommender.py:156-162 | liking stores the record under the id, leaves every other entry alone, and appends the id to the order only when it is new |
| Recommender.Unlike | movie_recommender.py:165-169 | defined by its body; see `Recommender.UnlikeFacts` and `Recommender.UnlikeUndoesLike` |
| Recommender.UnlikeFacts | movie_recommender.py:165-169 | unliking removes the id, leaves every other entry alone, and changes nothing when the id was not liked |
| Recommender.LikeOverwrites | movie_recommender.py:158-162 | liking the same movie twice keeps only the second record |
| Recommender.UnlikeUndoesLike | movie_recommender.py:156-169 | unliking a newly liked movie restores the previous table, including its order |
| Recommender.RemoveAppended | movie_recommender.py:168 | removing the id that was just appended restores the order |
| Recommender.NewEntry | movie_recommender.py:177-182 | missing movie ids or languages in a search entry become empty lists |
| Recommender.AppendCapped | movie_recommender.py:183-186 | defined by its body; see `Recommender.AppendCappedFacts` |
| Recommender.AppendCappedFacts | movie_recommender.py:183-186 | after appending, the history keeps its last 49 entries plus the new one, so it never exceeds 50, and the new entry is last |
| Recommender.AllMovieIdsMembers | movie_recommender.py:545-549 | the collected ids are exactly those of some history entry |
| Recommender.Analyse | movie_recommender.py:538-633 | defined by its body: the intermediate values of the history recommendation; see `Recommender.HistoryRecommendationsSpec` and `Recommender.MovieRecommender.GetRecommendationsFromHistory` |
| Recommender.HistoryRecommendations | movie_recommender.py:538-681 | defined by its body; see `Recommender.HistoryRecommendationsSpec` and `Recommender.MovieRecommender.GetRecommendationsFromHistory` |
| Recommender.HistoryRecommendationsSpec | movie_recommender.py:538-681 | without history or profile the result is trending. Otherwise it has exactly min(top_n, number of unique candidates) movies, so at most 60, all from the candidate pool, none already viewed, no id twice, ordered by non-increasing score, with ties in candidate order, and no unique candidate left out scores above a kept one |
| Recommender.MovieRecommender.constructor | movie_recommender.py:120-146 | the object starts with the liked movies and search history it is given |
| Recommender.MovieRecommender.IsMovieLiked | movie_recommender.py:171-173 | a movie is liked exactly when its id is a key of the liked table |
| Recommender.MovieRecommender.LikeMovie | movie_recommender.py:156-162 | the liked table becomes `Like` of the old one: the movie is liked with its mode, other entries and the history are unchanged |
| Recommender.MovieRecommender.UnlikeMovie | movie_recommender.py:165-169 | the liked table becomes `Unlike` of the old one: the movie is no longer liked, and nothing else changes |
| Recommender.MovieRecommender.AddToSearchHistory | movie_recommender.py:175-186 | the history becomes the capped append of the new entry, and the liked table is unchanged |
| Recommender.MovieRecommender.CollectHistory | movie_recommender.py:545-549 | the loop concatenates the movie ids and languages of all entries in history order |
| Recommender.MovieRecommender.GetRecommendationsFromHistory | movie_recommender.py:538-681 | the method computes exactly the modelled history recommendation from the object's state |
| Pagination.TotalPagesCeiling | movie_recommender.py:1756 | the page count is the ceiling of n / 10 |
| Pagination.PageBounds | movie_recommender.py:1755-1762 | every existing page has in-range indices and holds 1 to 10 items, exactly 10 before the last page |
| Pagination.PagesUpToPrefix | movie_recommender.py:1759-1762 | the pages up to page p together are the list up to that page's end |
| Pagination.PagesCoverAll | movie_recommender.py:1755-1762 | reading every page in turn shows each recommendation once, in order |
| Pagination.PageOfItem | movie_recommender.py:1759-1762 | item i is on page i // 10 + 1 at position i % 10 |
| Pagination.PreviousPage | movie_recommender.py:1769-1770 | Previous goes back one page, never below page 1 |
| Pagination.NextPageWithin | movie_recommender.py:1775-1776 | the bounded Next goes forward one page only before the last page |
| Pagination.ButtonsStayInRange | movie_recommender.py:1769-1776 | both bounded buttons keep the page between 1 and the page count |
| Pagination.PageCursor.constructor | movie_recommender.py:1730-1731 | a fresh page counter is on page 1 |
| Pagination.PageCursor.Previous | movie_recommender.py:1769-1770 | the counter takes the value of `PreviousPage` and stays at least 1 |
| Pagination.PageCursor.NextWithin | movie_recommender.py:1775-1776 | the counter takes the value of `NextPageWithin` |
| Pagination.PageCursor.Next | movie_recommender.py:893-894 | the unbounded Next adds one page |
| Pagination.PageCursor.Reset | movie_recommender.py:1822 | the counter returns to page 1 |
| Posters.NormalizePoster | app.py:193-195 | a poster that is None, "N/A" or "" becomes the placeholder image; any other poster is kept; the result is never missing |
| Posters.NormalizeIdempotent | app.py:307-309 | normalising an already normalised poster changes nothing |
| Posters.PosterFacts | app.py:192-195 | without details, a recommendation shows "No Image" and a trending card shows the blank placeholder; both agree when details exist, and a real poster is kept |
| Trending.PyMod | app.py:338 | Python's `%` has the sign of the divisor |
| Trending.PyDivMod | app.py:338 | floor division and modulo recombine to the dividend |
| Trending.TrendingWindow | app.py:336-345 | defined by its body; see `Trending.TrendingWindowSpec` and `Trending.RefreshShiftsWindow` |
| Trending.TrendingWindowSpec | app.py:336-345 | with exactly 10 titles the modulo divides by zero. With more, the window holds 10 consecutive titles that never include the last title. With fewer, the start is non-positive and at most that many titles are shown |
| Trending.RefreshShiftsWindow | app.py:330-339 | each Refresh moves the window start on by 10, modulo the number of possible starts |
| Trending.WindowStart | app.py:338 | with more than ten titles the start is the offset modulo n - 10 |
| Trending.TrendingSession.constructor | app.py:213-214 | the offset starts at 0 |
| Trending.TrendingSession.Refresh | app.py:330-331 | Refresh adds 10 to the offset |
| SimilarityRecommend.Enumerate | app.py:175 | `enumerate` pairs every position with its value |
| SimilarityRecommend.OrderingFacts | app.py:175 | sorting the enumerated row by similarity is a permutation with non-increasing similarity and distinct positions, each pair holding its row value |
| SimilarityRecommend.CandidatesSpec | app.py:175 | the candidates are positions 1 to 30 of the sorted row, at most 30 of them, without the first-ranked pair, by non-increasing similarity |
| SimilarityRecommend.TailSliceFacts | app.py:175 | dropping the first entry of a similarity ordering with distinct positions keeps it ordered and drops that entry for good |
| SimilarityRecommend.PicksOfSpec | app.py:177-183 | building the picks fails exactly when a candidate position lies outside the catalogue; otherwise there is one pick per candidate, with that movie's title and rating (0 when absent) |
| SimilarityRecommend.PicksStep | app.py:177-183 | one more candidate adds its pick, or fails when its position is past the table |
| StableSort.SortDescPrefixBest | app.py:186 | the first k elements of the sort are drawn from the input, and no element left out has a larger key than a kept one |
| StableSort.SortedPrefixBest | app.py:186 | a prefix of any ordered permutation of a list keeps the elements with the largest keys |
| SimilarityRecommend.TopPicks | app.py:186 | defined by its body; see `SimilarityRecommend.TopPicksSpec` |
| SimilarityRecommend.TopPicksSpec | app.py:186 | the top picks are the min(num, picks) best rated picks: drawn from the picks as a multiset, no pick left out rates above a kept one, by non-increasing rating, with equal ratings in their original order, and all of them when num covers the list |
| SimilarityRecommend.FindFrom | app.py:171 | the lookup finds the first movie with the title, and fails exactly when there is none |
| SimilarityRecommend.NamesAndPosters | app.py:188-196 | one name and one normalised poster per top pick, in order |
| SimilarityRecommend.ShownStep | app.py:188-196 | one more top pick adds its name and its normalised poster |
| SimilarityRecommend.Recommendation | app.py:170-198 | defined by its body; see `SimilarityRecommend.RecommendationSpec` and `SimilarityRecommend.Recommend` |
| SimilarityRecommend.RecommendationErrors | app.py:170-175 | an unknown title, a missing similarity row and an out-of-catalogue candidate are each reported exactly when they occur |
| SimilarityRecommend.TopNamesFromCandidates | app.py:177-196 | every name returned is the title of a looked-up candidate |
| SimilarityRecommend.RecommendationShape | app.py:170-198 | a successful call returns paired names and posters, min(num, candidates) ≤ 30 of them, no missing poster, names of similar movies |
| SimilarityRecommend.RecommendationBest | app.py:177-188 | a successful call names, in order, the top picks of the looked-up candidates, and no candidate left out rates above a named one |
| SimilarityRecommend.RecommendationOk | app.py:170-198 | a successful call returns paired names and posters, min(num, candidates) ≤ 30 of them, no missing poster; the names are, in order, those of the best rated looked-up candidates, none left out rating above a named one |
| SimilarityRecommend.RecommendationSpec | app.py:170-198 | an unknown title, a missing similarity row and an out-of-catalogue candidate are each reported exactly when they occur. Otherwise names and posters pair up, number min(num, candidates) ≤ 30 and have no missing poster, and the names are, in order, those of the best rated looked-up candidates, none left out rating above a named one |
| SimilarityRecommend.Recommend | app.py:170-198 | the two loops of `recommend` compute exactly the modelled recommendation |
| SimilarityRecommend.PicksPrefixErr | app.py:177-183 | once a prefix of the candidates fails, the whole list fails the same way |

## Left out

- HTTP requests to TMDb and OMDb are left out: `_create_session`, the `fetch_*` and `get_*` methods, and `fetch_movie_details` of `app.py`. Their answers are inputs (`Catalogue`, `fetch`). Timeouts, retries and distinct replies to repeated lookups of the same id are not modelled.
- Reading and writing the pickle files is left out (`load_search_history`, `load_liked_movies`, the `save_*` methods, `load_assets`). The state they load is the constructor's argument. Failed loads and saves are not modelled.
- The length of a search history loaded from disk is not bounded by the model. Only `AddToSearchHistory` enforces the cap of 50.
- `get_content_based_recommendations` is left out because it computes TF-IDF cosine similarity in floating point. Only the feature string behind it is modelled.
- The popularity, vote-average and release-year score terms are left out because they use floating point and the clock. They are the parameter `extra`. Timestamps are the parameter `now`.
- The order of iterating `set(all_movie_ids)` and `user_genres` is left out because Python does not fix it. They are the inputs `viewedOrder` and `genreOrder`. `HistoryRanking.GatherDetails` does not state that `viewedOrder` lists exactly the distinct viewed ids.
- `Recommender.Analyse` and `Recommender.MovieRecommender.GetRecommendationsFromHistory` do not require `viewedOrder` to list exactly the distinct viewed ids, nor `genreOrder` to list exactly the user genres. With an order that does not enumerate its set, the model looks up other ids or queries other genres than the program would; the lemmas about the result hold for every order.
- `user_keywords` is left out because it is computed but never used.
- The treatment of empty dictionaries and lists as false is not modelled in full. Missing movie data is `None` and an empty id or language list is `[]`. A present but empty details record counts as present.
- Ratings and similarities are integers, so NaN and fractional values are left out. The pandas row index is taken to equal the row position.
- The order of `sort_values` on ties is left out. The trending panel receives the ranked title list as an input.
- The Streamlit layout, the query parameters and `OpenCV` are left out, because they are user interface.
- The mode filters that call `list.index` are left out for the same reason. In the browsing screens only the page counters are modelled.
