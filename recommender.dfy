/** The in-memory state of `MovieRecommender`: the liked-movies table and the
    bounded search history, and the history-based recommendation that reads them.
    Persistence (the pickle files) is not modelled: every save leaves the state
    as it is. Clock readings are parameters. */
module Recommender {
  import opened PyLists
  import opened StableSort
  import opened Catalog
  import opened HistoryRanking

  const MaxHistory: int := 50
  const UnknownMode: string := "Unknown"
  const RecentViewed: int := 10

  /** A liked-table record: the stored list entry, when it was liked, and the
      browsing mode it was liked in. */
  datatype LikedRecord = LikedRecord(movieData: Option<Movie>, timestamp: int, mode: string)

  /** One search-history entry. */
  datatype SearchEntry = SearchEntry(query: string, movieIds: seq<MovieId>, languages: seq<string>, timestamp: int)

  /** `mode or 'Unknown'`: a missing or empty mode reads as "Unknown". */
  function ModeOrUnknown(mode: Option<string>): (r: string)
    ensures r != ""
    ensures r == UnknownMode <==> mode.None? || mode.value == "" || mode.value == UnknownMode
    ensures mode.Some? && mode.value != "" ==> r == mode.value
  {
    if mode.Some? && mode.value != "" then mode.value else UnknownMode
  }

  // ---------------------------------------------------------------------------
  // The liked table as a value

  /** A Python dict with its key order: the records and the ids in insertion order. */
  datatype LikedTable = LikedTable(records: map<MovieId, LikedRecord>, order: seq<MovieId>) {
    ghost predicate WellFormed() {
      Distinct(order) && AsSet(order) == records.Keys
    }

    /** `liked_movies.items()` as the recommendation loop reads it. */
    function Items(): (r: seq<LikedItem>)
      requires WellFormed()
      ensures |r| == |order|
      ensures forall i :: 0 <= i < |r| ==> r[i].0 == order[i] && r[i].1 == records[order[i]].movieData
    {
      seq(|order|, i requires 0 <= i < |order| && order[i] in records => (order[i], records[order[i]].movieData))
    }
  }

  /** The table is empty exactly when the items loop sees no item. */
  lemma EmptyTable(t: LikedTable)
    requires t.WellFormed()
    ensures t.records == map[] <==> t.Items() == []
  {
    if t.order != [] {
      assert t.order[0] in AsSet(t.order);
      assert t.order[0] in t.records;
    } else {
      assert t.records.Keys == {};
      assert t.records == map[];
    }
  }

  /** `liked_movies[id] = rec`: a new id goes last, an existing one keeps its place. */
  function Like(t: LikedTable, id: MovieId, rec: LikedRecord): LikedTable {
    LikedTable(t.records[id := rec], if id in t.records then t.order else t.order + [id])
  }

  /** `del liked_movies[id]` when present; nothing otherwise. */
  function Unlike(t: LikedTable, id: MovieId): LikedTable {
    if id in t.records then LikedTable(t.records - {id}, Remove(t.order, id)) else t
  }

  /** After a like the id is in the table with the new record; every other id
      keeps its record; an already-liked id keeps its position, a new one is
      appended. */
  lemma LikeFacts(t: LikedTable, id: MovieId, rec: LikedRecord)
    requires t.WellFormed()
    ensures Like(t, id, rec).WellFormed()
    ensures id in Like(t, id, rec).records && Like(t, id, rec).records[id] == rec
    ensures forall k :: k != id ==> (k in Like(t, id, rec).records <==> k in t.records)
    ensures forall k :: k != id && k in t.records ==> Like(t, id, rec).records[k] == t.records[k]
    ensures id in t.records ==> Like(t, id, rec).order == t.order
    ensures id !in t.records ==> |Like(t, id, rec).order| == |t.order| + 1 && Like(t, id, rec).order[|t.order|] == id
  {
    var o := Like(t, id, rec).order;
    if id !in t.records {
      assert id !in t.order;
      forall i, j | 0 <= i < j < |o| ensures o[i] != o[j] {
        if j == |t.order| { assert o[i] in t.order; }
      }
      assert AsSet(o) == AsSet(t.order) + {id};
    }
  }

  /** After an unlike the id is gone and every other entry is untouched; an
      absent id leaves the table as it was. */
  lemma UnlikeFacts(t: LikedTable, id: MovieId)
    requires t.WellFormed()
    ensures Unlike(t, id).WellFormed()
    ensures id !in Unlike(t, id).records
    ensures forall k :: k != id ==> (k in Unlike(t, id).records <==> k in t.records)
    ensures forall k :: k != id && k in t.records ==> Unlike(t, id).records[k] == t.records[k]
    ensures id !in t.records ==> Unlike(t, id) == t
  {
    RemoveFacts(t.order, id);
    if id in t.records {
      var o := Remove(t.order, id);
      assert AsSet(o) == AsSet(t.order) - {id};
    }
  }

  /** Liking twice is liking once with the second record. */
  lemma LikeOverwrites(t: LikedTable, id: MovieId, a: LikedRecord, b: LikedRecord)
    ensures Like(Like(t, id, a), id, b) == Like(t, id, b)
  {
    assert t.records[id := a][id := b] == t.records[id := b];
  }

  /** Unliking a movie that was just liked for the first time restores the table. */
  lemma UnlikeUndoesLike(t: LikedTable, id: MovieId, rec: LikedRecord)
    requires t.WellFormed() && id !in t.records
    ensures Unlike(Like(t, id, rec), id) == t
  {
    assert id !in t.order;
    RemoveFacts(t.order, id);
    RemoveAppended(t.order, id);
    assert t.records[id := rec] - {id} == t.records;
  }

  lemma {:induction false} RemoveAppended(s: seq<MovieId>, x: MovieId)
    requires x !in s
    ensures Remove(s + [x], x) == s
    decreases |s|
  {
    if s == [] {
      assert Remove([x], x) == [] + Remove([], x);
    } else {
      RemoveAppended(s[1..], x);
      assert (s + [x])[1..] == s[1..] + [x];
      assert s == [s[0]] + s[1..];
    }
  }

  // ---------------------------------------------------------------------------
  // The search history as a value

  /** The entry built by `add_to_search_history`: missing ids or languages read as []. */
  function NewEntry(query: string, movieIds: Option<seq<MovieId>>, languages: Option<seq<string>>, now: int): (e: SearchEntry)
    ensures e.movieIds == (if movieIds.Some? then movieIds.value else [])
    ensures e.languages == (if languages.Some? then languages.value else [])
  {
    SearchEntry(query, movieIds.GetOr([]), languages.GetOr([]), now)
  }

  /** Append, then keep only the last fifty entries. */
  function AppendCapped(history: seq<SearchEntry>, e: SearchEntry): seq<SearchEntry> {
    var h := history + [e];
    if |h| > MaxHistory then PySlice(h, -MaxHistory, |h|) else h
  }

  /** The history after an append is the last (at most) 49 old entries followed
      by the new one: never longer than fifty, and ending with the new entry. */
  lemma AppendCappedFacts(history: seq<SearchEntry>, e: SearchEntry)
    ensures |AppendCapped(history, e)| <= MaxHistory
    ensures |AppendCapped(history, e)| == Min(|history|, MaxHistory - 1) + 1
    ensures AppendCapped(history, e) == history[|history| - Min(|history|, MaxHistory - 1)..] + [e]
    ensures AppendCapped(history, e)[|AppendCapped(history, e)| - 1] == e
  {
    var h := history + [e];
    if |h| > MaxHistory {
      assert PySlice(h, -MaxHistory, |h|) == h[|h| - MaxHistory..];
      assert h[|h| - MaxHistory..] == history[|history| - (MaxHistory - 1)..] + [e];
    } else {
      assert history[0..] == history;
    }
  }

  /** Every movie id of the history, entry by entry. */
  function AllMovieIds(history: seq<SearchEntry>): seq<MovieId>
    decreases |history|
  {
    if history == [] then [] else AllMovieIds(history[..|history| - 1]) + history[|history| - 1].movieIds
  }

  /** Every language code of the history, entry by entry. */
  function AllLanguages(history: seq<SearchEntry>): seq<string>
    decreases |history|
  {
    if history == [] then [] else AllLanguages(history[..|history| - 1]) + history[|history| - 1].languages
  }

  /** An id is among the viewed ids exactly when some history entry lists it. */
  lemma {:induction false} AllMovieIdsMembers(history: seq<SearchEntry>)
    ensures forall id :: id in AllMovieIds(history) <==> exists e :: e in history && id in e.movieIds
    decreases |history|
  {
    if history != [] {
      var init, last := history[..|history| - 1], history[|history| - 1];
      assert history == init + [last];
      AllMovieIdsMembers(init);
      forall id ensures id in AllMovieIds(history) <==> exists e :: e in history && id in e.movieIds {
        if id in AllMovieIds(init) {
          var e :| e in init && id in e.movieIds;
          assert e in history;
        }
        if exists e :: e in history && id in e.movieIds {
          var e :| e in history && id in e.movieIds;
          if e != last { assert e in init; }
        }
      }
    }
  }

  // ---------------------------------------------------------------------------
  // The history-based recommendation as a value

  /** The intermediate values of `get_recommendations_from_history`. */
  datatype Analysis = Analysis(
    viewedIds: seq<MovieId>,
    searched: seq<string>,
    preferred0: seq<string>,
    recent: seq<Details>,
    likedDetails: seq<Movie>,
    preferred: seq<string>,
    userGenres: set<GenreId>,
    pool: seq<Movie>,
    unique: seq<Movie>,
    ctx: ScoreContext)

  /** `viewedOrder` and `genreOrder` are the orders in which the sets of viewed
      ids and of user genres are iterated; the program takes the last ten of the
      first and the first two of the second. */
  function Analyse(history: seq<SearchEntry>, liked: seq<LikedItem>, api: Catalogue,
                   viewedOrder: seq<MovieId>, genreOrder: seq<GenreId>): Analysis
  {
    var ids := AllMovieIds(history);
    var langs := AllLanguages(history);
    var preferred0 := Preferred(langs);
    var picked := PySlice(viewedOrder, -RecentViewed, |viewedOrder|);
    var recent := FetchedDetails(picked, api.details) + FetchedDetails(LikedIdsWithData(liked), api.details);
    var likedDetails := LikedDetails(liked);
    var preferred := ExtendPreferred(preferred0, likedDetails);
    var userGenres := LikedGenres(likedDetails) + RecentGenres(recent);
    var pool := CandidatePool(preferred, userGenres, genreOrder, api);
    var unique := Dedup(pool, MovieKey, AsSet(ids));
    Analysis(ids, langs, preferred0, recent, likedDetails, preferred, userGenres, pool, unique,
             ScoreContext(LikedGenres(likedDetails), preferred, userGenres))
  }

  /** The two early returns of plain trending movies. */
  predicate FallsBack(history: seq<SearchEntry>, liked: seq<LikedItem>, a: Analysis) {
    (history == [] && liked == []) || (a.recent == [] && a.preferred0 == [])
  }

  function HistoryRecommendations(history: seq<SearchEntry>, liked: seq<LikedItem>, topN: int, api: Catalogue,
                                  viewedOrder: seq<MovieId>, genreOrder: seq<GenreId>, extra: Movie -> int): seq<Movie>
  {
    var a := Analyse(history, liked, api, viewedOrder, genreOrder);
    if FallsBack(history, liked, a) then api.trending
    else SelectTop(Scored(a.unique, a.ctx, extra), topN)
  }

  /** Without history or liked movies, and without details or frequent languages,
      the answer is the trending list. Otherwise it holds exactly min(top_n, number
      of unique candidates) movies (so at most sixty), none viewed in the history, none twice, all from the
      candidate pool, in non-increasing order of score, equal scores in pool order;
      they are the best scored of the unique candidates: no candidate left out
      scores above a kept one. */
  lemma HistoryRecommendationsSpec(history: seq<SearchEntry>, liked: seq<LikedItem>, topN: int, api: Catalogue,
                                   viewedOrder: seq<MovieId>, genreOrder: seq<GenreId>, extra: Movie -> int)
    ensures var a := Analyse(history, liked, api, viewedOrder, genreOrder);
      var r := HistoryRecommendations(history, liked, topN, api, viewedOrder, genreOrder, extra);
      (FallsBack(history, liked, a) ==> r == api.trending) &&
      (!FallsBack(history, liked, a) ==>
        (0 <= topN ==> |r| == Min(topN, |a.unique|)) && |r| <= 60 &&
        (forall m :: m in r ==> m in a.pool && m.id !in a.viewedIds) &&
        DistinctKeys(r, MovieKey) &&
        (forall i, j :: 0 <= i < j < |r| ==> TotalScore(r[i], a.ctx, extra) >= TotalScore(r[j], a.ctx, extra)) &&
        (forall i, j :: 0 <= i < j < |r| && TotalScore(r[i], a.ctx, extra) == TotalScore(r[j], a.ctx, extra) ==>
           FirstIndex(Ids(a.unique), r[i].id) < FirstIndex(Ids(a.unique), r[j].id)) &&
        KeepsBest(a.unique, r, ScoreBy(a.ctx, extra)))
  {
    var a := Analyse(history, liked, api, viewedOrder, genreOrder);
    if !FallsBack(history, liked, a) {
      UniqueCandidates(a.pool, a.viewedIds);
      PoolBound(a.preferred, a.userGenres, genreOrder, api);
      DedupLength(a.pool, MovieKey, AsSet(a.viewedIds));
      SelectTopRanked(a.unique, a.ctx, extra, topN);
      SelectTopStable(a.unique, a.ctx, extra, topN);
    }
  }

  // ---------------------------------------------------------------------------
  // The object

  class MovieRecommender {
    var likedMovies: map<MovieId, LikedRecord>
    var likedOrder: seq<MovieId>
    var searchHistory: seq<SearchEntry>

    function Table(): LikedTable
      reads this
    {
      LikedTable(likedMovies, likedOrder)
    }

    ghost predicate Valid()
      reads this
    {
      Table().WellFormed()
    }

    /** The state as loaded from disk (an empty table and history when there is
        nothing to load). */
    constructor(liked: map<MovieId, LikedRecord>, order: seq<MovieId>, history: seq<SearchEntry>)
      requires LikedTable(liked, order).WellFormed()
      ensures Valid()
      ensures likedMovies == liked && likedOrder == order && searchHistory == history
    {
      likedMovies, likedOrder, searchHistory := liked, order, history;
    }

    /** `is_movie_liked`: membership of the id in the table. */
    function IsMovieLiked(id: MovieId): (r: bool)
      reads this
      ensures r <==> id in likedMovies
      ensures Valid() ==> (r <==> id in likedOrder)
    {
      id in likedMovies
    }

    /** `like_movie`: stores the entry, the time and the mode (or "Unknown"). */
    method LikeMovie(id: MovieId, data: Option<Movie>, mode: Option<string>, now: int)
      requires Valid()
      modifies this
      ensures Valid()
      ensures Table() == Like(old(Table()), id, LikedRecord(data, now, ModeOrUnknown(mode)))
      ensures IsMovieLiked(id) && likedMovies[id].mode == ModeOrUnknown(mode)
      ensures forall k :: k != id ==> (k in likedMovies <==> k in old(likedMovies))
      ensures forall k :: k != id && k in old(likedMovies) ==> likedMovies[k] == old(likedMovies)[k]
      ensures searchHistory == old(searchHistory)
    {
      LikeFacts(Table(), id, LikedRecord(data, now, ModeOrUnknown(mode)));
      if id !in likedMovies {
        likedOrder := likedOrder + [id];
      }
      likedMovies := likedMovies[id := LikedRecord(data, now, ModeOrUnknown(mode))];
    }

    /** `unlike_movie`: deletes the id when it is present. */
    method UnlikeMovie(id: MovieId)
      requires Valid()
      modifies this
      ensures Valid()
      ensures Table() == Unlike(old(Table()), id)
      ensures !IsMovieLiked(id)
      ensures forall k :: k != id ==> (k in likedMovies <==> k in old(likedMovies))
      ensures forall k :: k != id && k in old(likedMovies) ==> likedMovies[k] == old(likedMovies)[k]
      ensures old(id !in likedMovies) ==> likedMovies == old(likedMovies) && likedOrder == old(likedOrder)
      ensures searchHistory == old(searchHistory)
    {
      UnlikeFacts(Table(), id);
      if id in likedMovies {
        likedMovies := likedMovies - {id};
        likedOrder := Remove(likedOrder, id);
      }
    }

    /** `add_to_search_history`: appends the entry and keeps the last fifty. */
    method AddToSearchHistory(query: string, movieIds: Option<seq<MovieId>>, languages: Option<seq<string>>, now: int)
      modifies this
      ensures searchHistory == AppendCapped(old(searchHistory), NewEntry(query, movieIds, languages, now))
      ensures |searchHistory| <= MaxHistory && searchHistory[|searchHistory| - 1] == NewEntry(query, movieIds, languages, now)
      ensures likedMovies == old(likedMovies) && likedOrder == old(likedOrder)
    {
      var entry := NewEntry(query, movieIds, languages, now);
      AppendCappedFacts(searchHistory, entry);
      searchHistory := searchHistory + [entry];
      if |searchHistory| > MaxHistory {
        searchHistory := PySlice(searchHistory, -MaxHistory, |searchHistory|);
      }
    }

    /** The loop that gathers every viewed id and searched language. */
    method CollectHistory() returns (ids: seq<MovieId>, langs: seq<string>)
      ensures ids == AllMovieIds(searchHistory) && langs == AllLanguages(searchHistory)
    {
      ids, langs := [], [];
      var i := 0;
      while i < |searchHistory|
        invariant 0 <= i <= |searchHistory|
        invariant ids == AllMovieIds(searchHistory[..i]) && langs == AllLanguages(searchHistory[..i])
      {
        assert searchHistory[..i + 1][..i] == searchHistory[..i];
        ids := ids + searchHistory[i].movieIds;
        langs := langs + searchHistory[i].languages;
        i := i + 1;
      }
      assert searchHistory[..i] == searchHistory;
    }

    /** `get_recommendations_from_history(top_n)`, with the API answers, the set
        iteration orders and the fractional score terms as parameters. */
    method GetRecommendationsFromHistory(topN: int, api: Catalogue, viewedOrder: seq<MovieId>,
                                         genreOrder: seq<GenreId>, extra: Movie -> int)
      returns (r: seq<Movie>)
      requires Valid()
      ensures r == HistoryRecommendations(searchHistory, Table().Items(), topN, api, viewedOrder, genreOrder, extra)
    {
      var liked := Table().Items();
      ghost var a := Analyse(searchHistory, liked, api, viewedOrder, genreOrder);
      EmptyTable(Table());
      if searchHistory == [] && likedMovies == map[] {
        return api.trending;
      }
      var ids, langs := CollectHistory();
      assert ids == a.viewedIds && langs == a.searched;
      var order, freq := CountLanguages(langs);
      var preferred := PreferredLanguages(order, freq);
      assert preferred == a.preferred0;
      var picked := PySlice(viewedOrder, -RecentViewed, |viewedOrder|);
      var recent, likedDetails := GatherDetails(picked, liked, api.details);
      assert recent == a.recent && likedDetails == a.likedDetails;
      if recent == [] && preferred == [] {
        return api.trending;
      }
      assert !FallsBack(searchHistory, liked, a);
      var userGenres;
      preferred, userGenres := BuildProfile(preferred, likedDetails, recent);
      assert preferred == a.preferred && userGenres == a.userGenres;
      var pool := AssemblePool(preferred, userGenres, genreOrder, api);
      var unique := DedupCandidates(pool, ids);
      assert unique == a.unique;
      var likedGenres := CollectLikedGenres(likedDetails);
      assert ScoreContext(likedGenres, preferred, userGenres) == a.ctx;
      var scored := ScoreCandidates(unique, ScoreContext(likedGenres, preferred, userGenres), extra);
      r := SelectTop(scored, topN);
    }
  }
}
