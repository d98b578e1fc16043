/** The ranking inside `MovieRecommender.get_recommendations_from_history`: the
    language-frequency count and the preferred languages drawn from it, the
    profile taken from the liked movies, the candidate pool, the removal of
    duplicates and of viewed movies, the integer part of the score, and the final
    sort-and-truncate. Every HTTP result is a parameter. */
module HistoryRanking {
  import opened PyLists
  import opened StableSort
  import opened Catalog

  /** The key a language is counted and deduplicated by: itself. */
  function LangKey(l: string): string { l }

  /** The key a candidate is deduplicated by: its id. */
  function MovieKey(m: Movie): MovieId { m.id }

  lemma LangKeys(s: seq<string>)
    ensures forall l :: l in Keys(s, LangKey) <==> l in s
  {
    forall l | l in s ensures l in Keys(s, LangKey) {
      assert LangKey(l) == l;
    }
  }

  // ---------------------------------------------------------------------------
  // Language frequency

  /** `language_frequency` as a value: every truthy (non-empty) code mapped to
      the number of times it occurs. */
  function LanguageCounts(langs: seq<string>): map<string, nat> {
    map l | l in langs && l != "" :: Count(langs, l)
  }

  /** The insertion order of `language_frequency`: the non-empty codes in order
      of first occurrence. */
  function LanguageOrder(langs: seq<string>): seq<string> {
    Dedup(langs, LangKey, {""})
  }

  /** The counting loop. The dictionary is returned as its contents and its
      key order. */
  method CountLanguages(langs: seq<string>) returns (order: seq<string>, freq: map<string, nat>)
    ensures order == LanguageOrder(langs)
    ensures freq == LanguageCounts(langs)
  {
    order, freq := [], map[];
    var i := 0;
    while i < |langs|
      invariant 0 <= i <= |langs|
      invariant order == Dedup(langs[..i], LangKey, {""})
      invariant forall l :: l in freq <==> l != "" && l in langs[..i]
      invariant forall l :: l in freq ==> freq[l] == Count(langs[..i], l)
    {
      var lang := langs[i];
      assert langs[..i + 1][..i] == langs[..i];
      assert langs[..i + 1] == langs[..i] + [lang];
      LangKeys(langs[..i]);
      CountPositive(langs[..i], lang);
      forall l ensures Count(langs[..i + 1], l) == Count(langs[..i], l) + (if lang == l then 1 else 0) {
        assert langs[..i + 1][i] == lang;
      }
      if lang != "" {
        if lang !in freq {
          order := order + [lang];
        }
        freq := freq[lang := (if lang in freq then freq[lang] else 0) + 1];
      }
      i := i + 1;
    }
    assert langs[..i] == langs;
  }

  /** The dictionary value read by the sort key (never asked for a missing code). */
  function ByCount(freq: map<string, nat>): string -> int {
    l => if l in freq then freq[l] else 0
  }

  /** `[lang for lang, count in language_frequency.items() if count >= 2]`. */
  function Frequent(order: seq<string>, freq: map<string, nat>): seq<string>
    decreases |order|
  {
    if order == [] then []
    else (if order[0] in freq && freq[order[0]] >= 2 then [order[0]] else []) + Frequent(order[1..], freq)
  }

  /** Frequent keeps exactly the codes counted at least twice. */
  lemma {:induction false} FrequentMembers(order: seq<string>, freq: map<string, nat>)
    ensures forall l :: l in Frequent(order, freq) <==> l in order && l in freq && freq[l] >= 2
    decreases |order|
  {
    if order != [] {
      FrequentMembers(order[1..], freq);
      assert order == [order[0]] + order[1..];
    }
  }

  /** Frequent keeps a strictly increasing rank strictly increasing. */
  lemma {:induction false} FrequentRanked(order: seq<string>, freq: map<string, nat>, rank: string -> int)
    requires forall i, j :: 0 <= i < j < |order| ==> rank(order[i]) < rank(order[j])
    ensures forall i, j :: 0 <= i < j < |Frequent(order, freq)| ==> rank(Frequent(order, freq)[i]) < rank(Frequent(order, freq)[j])
    decreases |order|
  {
    if order != [] {
      var rest := order[1..];
      forall i, j | 0 <= i < j < |rest| ensures rank(rest[i]) < rank(rest[j]) {
        assert rest[i] == order[i + 1] && rest[j] == order[j + 1];
      }
      FrequentRanked(rest, freq, rank);
      var f1 := Frequent(rest, freq);
      if order[0] in freq && freq[order[0]] >= 2 {
        FrequentMembers(rest, freq);
        forall y | y in f1 ensures rank(order[0]) < rank(y) {
          var m :| 0 <= m < |rest| && rest[m] == y;
          assert order[m + 1] == y;
        }
        RankedCons(order[0], f1, rank);
        assert Frequent(order, freq) == [order[0]] + f1;
      } else {
        assert Frequent(order, freq) == [] + f1;
      }
    }
  }

  lemma RankedCons(a: string, r: seq<string>, rank: string -> int)
    requires forall i, j :: 0 <= i < j < |r| ==> rank(r[i]) < rank(r[j])
    requires forall y :: y in r ==> rank(a) < rank(y)
    ensures forall i, j :: 0 <= i < j < |[a] + r| ==> rank(([a] + r)[i]) < rank(([a] + r)[j])
  {
    var c := [a] + r;
    forall i, j | 0 <= i < j < |c| ensures rank(c[i]) < rank(c[j]) {
      if i == 0 { assert c[j] in r; } else { assert c[i] == r[i - 1] && c[j] == r[j - 1]; }
    }
  }

  /** `preferred_languages` before the liked movies add to it: the frequent codes
      sorted by non-increasing count (a stable sort). */
  function PreferredLanguages(order: seq<string>, freq: map<string, nat>): seq<string> {
    SortDesc(Frequent(order, freq), ByCount(freq))
  }

  /** The preferred languages of a list of searched codes. */
  function Preferred(langs: seq<string>): seq<string> {
    PreferredLanguages(LanguageOrder(langs), LanguageCounts(langs))
  }

  /** Every code keeps the position of its first occurrence as its rank in the
      insertion order. */
  lemma LanguageOrderFirst(langs: seq<string>)
    ensures forall i, j :: 0 <= i < j < |LanguageOrder(langs)| ==>
      FirstIndex(langs, LanguageOrder(langs)[i]) < FirstIndex(langs, LanguageOrder(langs)[j])
    ensures forall l :: l in LanguageOrder(langs) <==> l != "" && l in langs
  {
    var d := LanguageOrder(langs);
    var idx := DedupKeepsFirst(langs, LangKey, {""});
    forall k | 0 <= k < |idx| ensures FirstIndex(langs, d[k]) == idx[k] {
      assert d[k] in langs;
      assert langs[idx[k]] == d[k];
    }
    DedupFacts(langs, LangKey, {""});
    LangKeys(langs);
    LangKeys(d);
  }

  /** The preferred languages are exactly the non-empty codes searched at
      least twice. */
  lemma PreferredMembers(langs: seq<string>)
    ensures forall l :: l in Preferred(langs) <==> l != "" && Count(langs, l) >= 2
  {
    var order, freq := LanguageOrder(langs), LanguageCounts(langs);
    LanguageOrderFirst(langs);
    FrequentMembers(order, freq);
    SortDescMembers(Frequent(order, freq), ByCount(freq));
    forall l ensures l in Preferred(langs) <==> l != "" && Count(langs, l) >= 2 {
      CountPositive(langs, l);
    }
  }

  /** The sort key of a preferred language is its count. */
  lemma PreferredKey(langs: seq<string>)
    ensures forall l :: l in Preferred(langs) ==> ByCount(LanguageCounts(langs))(l) == Count(langs, l)
  {
    PreferredMembers(langs);
    var freq := LanguageCounts(langs);
    forall l | l in Preferred(langs) ensures ByCount(freq)(l) == Count(langs, l) {
      CountPositive(langs, l);
      assert l in freq && freq[l] == Count(langs, l);
    }
  }

  /** The preferred languages come in non-increasing order of their counts. */
  lemma PreferredByCount(langs: seq<string>)
    ensures forall i, j :: 0 <= i < j < |Preferred(langs)| ==> Count(langs, Preferred(langs)[i]) >= Count(langs, Preferred(langs)[j])
  {
    var freq := LanguageCounts(langs);
    SortDescSorted(Frequent(LanguageOrder(langs), freq), ByCount(freq));
    PreferredKey(langs);
    var p := Preferred(langs);
    forall i, j | 0 <= i < j < |p| ensures Count(langs, p[i]) >= Count(langs, p[j]) {
      assert p[i] in p && p[j] in p;
    }
  }

  /** Preferred languages with equal counts keep the order in which they were
      first searched, so none is listed twice. */
  lemma PreferredTies(langs: seq<string>)
    ensures forall i, j :: 0 <= i < j < |Preferred(langs)| && Count(langs, Preferred(langs)[i]) == Count(langs, Preferred(langs)[j]) ==>
      FirstIndex(langs, Preferred(langs)[i]) < FirstIndex(langs, Preferred(langs)[j])
    ensures Distinct(Preferred(langs))
  {
    var order, freq := LanguageOrder(langs), LanguageCounts(langs);
    var rank := l => FirstIndex(langs, l);
    var f := Frequent(order, freq);
    LanguageOrderFirst(langs);
    FrequentRanked(order, freq, rank);
    SortDescTiesRanked(f, ByCount(freq), rank);
    PreferredKey(langs);
    PreferredByCount(langs);
    var p := Preferred(langs);
    forall i, j | 0 <= i < j < |p| && Count(langs, p[i]) == Count(langs, p[j]) ensures FirstIndex(langs, p[i]) < FirstIndex(langs, p[j]) {
      assert p[i] in p && p[j] in p;
      assert rank(p[i]) < rank(p[j]);
    }
    forall i, j | 0 <= i < j < |p| ensures p[i] != p[j] {
      assert Count(langs, p[i]) != Count(langs, p[j]) || FirstIndex(langs, p[i]) < FirstIndex(langs, p[j]);
    }
  }

  // ---------------------------------------------------------------------------
  // The profile: liked movies and recently viewed details

  /** The liked table as the loop over `liked_movies.items()` sees it: each id
      with its stored list entry (None when the entry is missing or empty). */
  type LikedItem = (MovieId, Option<Movie>)

  /** `liked_movie_details`: the stored entries that are present, in table order. */
  function LikedDetails(liked: seq<LikedItem>): seq<Movie>
    decreases |liked|
  {
    if liked == [] then []
    else
      var init, last := liked[..|liked| - 1], liked[|liked| - 1];
      LikedDetails(init) + (if last.1.Some? then [last.1.value] else [])
  }

  /** The ids whose details are fetched from the liked table. */
  function LikedIdsWithData(liked: seq<LikedItem>): seq<MovieId>
    decreases |liked|
  {
    if liked == [] then []
    else
      var init, last := liked[..|liked| - 1], liked[|liked| - 1];
      LikedIdsWithData(init) + (if last.1.Some? then [last.0] else [])
  }

  /** The details the API returns for ids, skipping ids it has none for. */
  function FetchedDetails(ids: seq<MovieId>, fetch: MovieId -> Option<Details>): seq<Details>
    decreases |ids|
  {
    if ids == [] then []
    else
      var d := fetch(ids[|ids| - 1]);
      FetchedDetails(ids[..|ids| - 1], fetch) + (if d.Some? then [d.value] else [])
  }

  /** A fetched details record is kept exactly when the API answered for it. */
  lemma {:induction false} FetchedDetailsFacts(ids: seq<MovieId>, fetch: MovieId -> Option<Details>)
    ensures |FetchedDetails(ids, fetch)| <= |ids|
    ensures forall d :: d in FetchedDetails(ids, fetch) <==> exists id :: id in ids && fetch(id) == Some(d)
    decreases |ids|
  {
    if ids != [] {
      var init, id := ids[..|ids| - 1], ids[|ids| - 1];
      assert ids == init + [id];
      FetchedDetailsFacts(init, fetch);
      forall d ensures d in FetchedDetails(ids, fetch) <==> exists x :: x in ids && fetch(x) == Some(d) {
        if d in FetchedDetails(init, fetch) {
          var x :| x in init && fetch(x) == Some(d);
          assert x in ids;
        }
        if exists x :: x in ids && fetch(x) == Some(d) {
          var x :| x in ids && fetch(x) == Some(d);
          if x != id { assert x in init; }
        }
      }
    }
  }

  lemma FetchedSnoc(ids: seq<MovieId>, id: MovieId, fetch: MovieId -> Option<Details>)
    ensures FetchedDetails(ids + [id], fetch) == FetchedDetails(ids, fetch) + (if fetch(id).Some? then [fetch(id).value] else [])
  {
    assert (ids + [id])[..|ids|] == ids;
  }

  lemma LikedStep(liked: seq<LikedItem>, j: nat)
    requires j < |liked|
    ensures LikedDetails(liked[..j + 1]) == LikedDetails(liked[..j]) + (if liked[j].1.Some? then [liked[j].1.value] else [])
    ensures LikedIdsWithData(liked[..j + 1]) == LikedIdsWithData(liked[..j]) + (if liked[j].1.Some? then [liked[j].0] else [])
  {
    assert liked[..j + 1][..j] == liked[..j];
  }

  /** The two loops that fill `recent_movies` and `liked_movie_details`: first the
      details of the picked viewed ids, then, for each liked movie with a stored
      entry, its entry and its details. */
  method GatherDetails(viewed: seq<MovieId>, liked: seq<LikedItem>, fetch: MovieId -> Option<Details>)
    returns (recent: seq<Details>, likedDetails: seq<Movie>)
    ensures recent == FetchedDetails(viewed, fetch) + FetchedDetails(LikedIdsWithData(liked), fetch)
    ensures likedDetails == LikedDetails(liked)
  {
    recent := [];
    var i := 0;
    while i < |viewed|
      invariant 0 <= i <= |viewed|
      invariant recent == FetchedDetails(viewed[..i], fetch)
    {
      var details := fetch(viewed[i]);
      if details.Some? {
        recent := recent + [details.value];
      }
      assert viewed[..i + 1] == viewed[..i] + [viewed[i]];
      FetchedSnoc(viewed[..i], viewed[i], fetch);
      i := i + 1;
    }
    assert viewed[..i] == viewed;
    ghost var fromViewed := recent;
    likedDetails := [];
    var j := 0;
    while j < |liked|
      invariant 0 <= j <= |liked|
      invariant likedDetails == LikedDetails(liked[..j])
      invariant recent == fromViewed + FetchedDetails(LikedIdsWithData(liked[..j]), fetch)
    {
      var id, data := liked[j].0, liked[j].1;
      LikedStep(liked, j);
      if data.Some? {
        likedDetails := likedDetails + [data.value];
        var details := fetch(id);
        FetchedSnoc(LikedIdsWithData(liked[..j]), id, fetch);
        if details.Some? {
          recent := recent + [details.value];
        }
        assert LikedIdsWithData(liked[..j + 1]) == LikedIdsWithData(liked[..j]) + [id];
        assert recent == fromViewed + FetchedDetails(LikedIdsWithData(liked[..j]) + [id], fetch);
      } else {
        assert LikedIdsWithData(liked[..j + 1]) == LikedIdsWithData(liked[..j]);
      }
      j := j + 1;
    }
    assert liked[..j] == liked;
  }

  /** The genre ids of a list of list entries, as one set. */
  function LikedGenres(ms: seq<Movie>): set<GenreId>
    decreases |ms|
  {
    if ms == [] then {} else LikedGenres(ms[..|ms| - 1]) + AsSet(ms[|ms| - 1].genreIds)
  }

  /** The loop that gathers `liked_genres` before scoring. */
  method CollectLikedGenres(liked: seq<Movie>) returns (genres: set<GenreId>)
    ensures genres == LikedGenres(liked)
    ensures forall m :: m in liked ==> AsSet(m.genreIds) <= genres
  {
    genres := {};
    var i := 0;
    while i < |liked|
      invariant 0 <= i <= |liked|
      invariant genres == LikedGenres(liked[..i])
      invariant forall m :: m in liked[..i] ==> AsSet(m.genreIds) <= genres
    {
      assert liked[..i + 1][..i] == liked[..i];
      assert liked[..i + 1] == liked[..i] + [liked[i]];
      genres := genres + AsSet(liked[i].genreIds);
      i := i + 1;
    }
    assert liked[..i] == liked;
  }

  /** The genre ids listed by a list of details records, as one set. */
  function RecentGenres(ds: seq<Details>): set<GenreId>
    decreases |ds|
  {
    if ds == [] then {}
    else
      var d := ds[|ds| - 1];
      RecentGenres(ds[..|ds| - 1]) + (if d.genres.Some? then set g | g in d.genres.value :: g.id else {})
  }

  /** The original languages of the liked entries, in order. */
  function LanguagesOf(ms: seq<Movie>): seq<string> {
    seq(|ms|, i requires 0 <= i < |ms| => ms[i].originalLanguage)
  }

  /** `preferred_languages` after the liked movies: each non-empty liked language
      not in the list yet is appended, in liked order. */
  function ExtendPreferred(preferred: seq<string>, liked: seq<Movie>): seq<string> {
    preferred + Dedup(LanguagesOf(liked), LangKey, AsSet(preferred) + {""})
  }

  /** Extending keeps the searched preferences as a prefix (so their ranks do not
      change), adds exactly the liked languages, and lists no language twice. */
  lemma ExtendPreferredFacts(preferred: seq<string>, liked: seq<Movie>)
    requires Distinct(preferred)
    ensures preferred <= ExtendPreferred(preferred, liked)
    ensures forall l :: l in ExtendPreferred(preferred, liked) <==> l in preferred || (l != "" && l in LanguagesOf(liked))
    ensures Distinct(ExtendPreferred(preferred, liked))
  {
    var seen := AsSet(preferred) + {""};
    var added := Dedup(LanguagesOf(liked), LangKey, seen);
    var e := preferred + added;
    DedupFacts(LanguagesOf(liked), LangKey, seen);
    LangKeys(LanguagesOf(liked));
    LangKeys(added);
    forall l ensures l in e <==> l in preferred || (l != "" && l in LanguagesOf(liked)) {
      if l in LanguagesOf(liked) && l != "" && l !in preferred {
        assert l in Keys(LanguagesOf(liked), LangKey) - seen;
      }
    }
    forall i, j | 0 <= i < j < |added| ensures added[i] != added[j] {
      assert LangKey(added[i]) != LangKey(added[j]);
    }
    forall x | x in added ensures x !in preferred {
      assert LangKey(x) !in seen;
    }
    AppendDistinct(preferred, added);
  }

  lemma AppendDistinct(p: seq<string>, a: seq<string>)
    requires Distinct(p) && Distinct(a)
    requires forall x :: x in a ==> x !in p
    ensures Distinct(p + a)
  {
    var e := p + a;
    forall i, j | 0 <= i < j < |e| ensures e[i] != e[j] {
      if j >= |p| {
        assert e[j] == a[j - |p|] && e[j] in a;
        if i >= |p| {
          assert e[i] == a[i - |p|];
        } else {
          assert e[i] == p[i] && e[i] in p;
        }
      } else {
        assert e[i] == p[i] && e[j] == p[j];
      }
    }
  }

  /** One more liked entry: its genres join the user's genres, and its language
      is appended when it is non-empty and not yet preferred. */
  lemma LikedProfileStep(preferred0: seq<string>, liked: seq<Movie>, i: nat)
    requires i < |liked|
    ensures LikedGenres(liked[..i + 1]) == LikedGenres(liked[..i]) + AsSet(liked[i].genreIds)
    ensures var p, lang := ExtendPreferred(preferred0, liked[..i]), liked[i].originalLanguage;
      ExtendPreferred(preferred0, liked[..i + 1]) == p + (if lang != "" && lang !in p then [lang] else [])
  {
    assert liked[..i + 1][..i] == liked[..i];
    var langs := LanguagesOf(liked[..i]);
    var lang := liked[i].originalLanguage;
    var seen := AsSet(preferred0) + {""};
    assert LanguagesOf(liked[..i + 1]) == langs + [lang];
    assert (langs + [lang])[..|langs|] == langs;
    var added := Dedup(langs, LangKey, seen);
    LangKeys(langs);
    DedupFacts(langs, LangKey, seen);
    LangKeys(added);
    assert lang in ExtendPreferred(preferred0, liked[..i]) <==> lang in preferred0 || lang in added;
  }

  /** One more recent details record: the genres it lists join the set. */
  lemma RecentGenresStep(recent: seq<Details>, j: nat)
    requires j < |recent|
    ensures RecentGenres(recent[..j + 1]) ==
      RecentGenres(recent[..j]) + (if recent[j].genres.Some? then set g | g in recent[j].genres.value :: g.id else {})
  {
    assert recent[..j + 1][..j] == recent[..j];
  }

  lemma GenreIdsStep(gs: seq<Genre>, k: nat)
    requires k < |gs|
    ensures (set g | g in gs[..k + 1] :: g.id) == (set g | g in gs[..k] :: g.id) + {gs[k].id}
  {
    assert gs[..k + 1] == gs[..k] + [gs[k]];
  }

  /** The loops over the liked entries and the recent details that build the
      user's genres and extend the preferred languages. (The keywords collected
      beside them are never read.) */
  method BuildProfile(preferred0: seq<string>, liked: seq<Movie>, recent: seq<Details>)
    returns (preferred: seq<string>, userGenres: set<GenreId>)
    ensures preferred == ExtendPreferred(preferred0, liked)
    ensures userGenres == LikedGenres(liked) + RecentGenres(recent)
  {
    preferred, userGenres := preferred0, {};
    var i := 0;
    assert liked[..0] == [];
    while i < |liked|
      invariant 0 <= i <= |liked|
      invariant userGenres == LikedGenres(liked[..i])
      invariant preferred == ExtendPreferred(preferred0, liked[..i])
    {
      var movie := liked[i];
      LikedProfileStep(preferred0, liked, i);
      userGenres := userGenres + AsSet(movie.genreIds);
      var lang := movie.originalLanguage;
      if lang != "" && lang !in preferred {
        preferred := preferred + [lang];
      }
      i := i + 1;
    }
    assert liked[..i] == liked;
    ghost var base := userGenres;
    var j := 0;
    while j < |recent|
      invariant 0 <= j <= |recent|
      invariant userGenres == base + RecentGenres(recent[..j])
    {
      var movie := recent[j];
      RecentGenresStep(recent, j);
      if movie.genres.Some? {
        var k := 0;
        ghost var before := userGenres;
        while k < |movie.genres.value|
          invariant 0 <= k <= |movie.genres.value|
          invariant userGenres == before + set g | g in movie.genres.value[..k] :: g.id
        {
          GenreIdsStep(movie.genres.value, k);
          userGenres := userGenres + {movie.genres.value[k].id};
          k := k + 1;
        }
        assert movie.genres.value[..k] == movie.genres.value;
      }
      j := j + 1;
    }
    assert recent[..j] == recent;
  }

  // ---------------------------------------------------------------------------
  // The candidate pool

  /** What the catalogue API answers at page 1: details by id, list entries by
      language and by genre, trending entries, and trending entries in a language. */
  datatype Catalogue = Catalogue(
    details: MovieId -> Option<Details>,
    byLanguage: string -> seq<Movie>,
    byGenre: GenreId -> seq<Movie>,
    trending: seq<Movie>,
    trendingIn: string -> seq<Movie>)

  const LanguagesQueried: int := 2
  const PerLanguage: int := 15
  const GenresQueried: int := 2
  const PerGenre: int := 10
  const TrendingTaken: int := 10

  /** The first fifteen entries for each language, in order. */
  function LanguagePool(langs: seq<string>, api: Catalogue): seq<Movie>
    decreases |langs|
  {
    if langs == [] then []
    else LanguagePool(langs[..|langs| - 1], api) + Take(api.byLanguage(langs[|langs| - 1]), PerLanguage)
  }

  /** The first ten entries for each genre, in order. */
  function GenrePool(gs: seq<GenreId>, api: Catalogue): seq<Movie>
    decreases |gs|
  {
    if gs == [] then []
    else GenrePool(gs[..|gs| - 1], api) + Take(api.byGenre(gs[|gs| - 1]), PerGenre)
  }

  /** Trending in the top preferred language when there is one. */
  function TrendingFor(preferred: seq<string>, api: Catalogue): seq<Movie> {
    if preferred != [] then api.trendingIn(preferred[0]) else api.trending
  }

  /** `recommended_movies`: the entries of the first two preferred languages,
      then of the first two genres as the genre set lists them (`genreOrder`),
      then the first ten trending entries. */
  function CandidatePool(preferred: seq<string>, userGenres: set<GenreId>, genreOrder: seq<GenreId>, api: Catalogue): seq<Movie> {
    (if preferred != [] then LanguagePool(Take(preferred, LanguagesQueried), api) else [])
    + (if userGenres != {} then GenrePool(Take(genreOrder, GenresQueried), api) else [])
    + Take(TrendingFor(preferred, api), TrendingTaken)
  }

  lemma {:induction false} LanguagePoolBound(langs: seq<string>, api: Catalogue)
    ensures |LanguagePool(langs, api)| <= PerLanguage * |langs|
    decreases |langs|
  {
    if langs != [] {
      LanguagePoolBound(langs[..|langs| - 1], api);
    }
  }

  lemma {:induction false} GenrePoolBound(gs: seq<GenreId>, api: Catalogue)
    ensures |GenrePool(gs, api)| <= PerGenre * |gs|
    decreases |gs|
  {
    if gs != [] {
      GenrePoolBound(gs[..|gs| - 1], api);
    }
  }

  /** At most 2 * 15 + 2 * 10 + 10 candidates are gathered. */
  lemma PoolBound(preferred: seq<string>, userGenres: set<GenreId>, genreOrder: seq<GenreId>, api: Catalogue)
    ensures |CandidatePool(preferred, userGenres, genreOrder, api)| <= 60
  {
    LanguagePoolBound(Take(preferred, LanguagesQueried), api);
    GenrePoolBound(Take(genreOrder, GenresQueried), api);
  }

  lemma LanguagePoolStep(langs: seq<string>, i: nat, api: Catalogue)
    requires i < |langs|
    ensures LanguagePool(langs[..i + 1], api) == LanguagePool(langs[..i], api) + Take(api.byLanguage(langs[i]), PerLanguage)
  {
    assert langs[..i + 1][..i] == langs[..i];
  }

  lemma GenrePoolStep(gs: seq<GenreId>, j: nat, api: Catalogue)
    requires j < |gs|
    ensures GenrePool(gs[..j + 1], api) == GenrePool(gs[..j], api) + Take(api.byGenre(gs[j]), PerGenre)
  {
    assert gs[..j + 1][..j] == gs[..j];
  }

  /** The loops that fill `recommended_movies`. */
  method AssemblePool(preferred: seq<string>, userGenres: set<GenreId>, genreOrder: seq<GenreId>, api: Catalogue)
    returns (pool: seq<Movie>)
    ensures pool == CandidatePool(preferred, userGenres, genreOrder, api)
  {
    pool := [];
    if preferred != [] {
      var langs := Take(preferred, LanguagesQueried);
      var i := 0;
      while i < |langs|
        invariant 0 <= i <= |langs|
        invariant pool == LanguagePool(langs[..i], api)
      {
        LanguagePoolStep(langs, i, api);
        pool := pool + Take(api.byLanguage(langs[i]), PerLanguage);
        i := i + 1;
      }
      assert langs[..i] == langs;
    }
    ghost var head := pool;
    assert head == (if preferred != [] then LanguagePool(Take(preferred, LanguagesQueried), api) else []);
    if userGenres != {} {
      var gs := Take(genreOrder, GenresQueried);
      var j := 0;
      while j < |gs|
        invariant 0 <= j <= |gs|
        invariant pool == head + GenrePool(gs[..j], api)
      {
        GenrePoolStep(gs, j, api);
        pool := pool + Take(api.byGenre(gs[j]), PerGenre);
        j := j + 1;
      }
      assert gs[..j] == gs;
    }
    assert pool == head + (if userGenres != {} then GenrePool(Take(genreOrder, GenresQueried), api) else []);
    var trending := if preferred != [] then api.trendingIn(preferred[0]) else api.trending;
    assert trending == TrendingFor(preferred, api);
    pool := pool + Take(trending, TrendingTaken);
  }

  // ---------------------------------------------------------------------------
  // Removing duplicates and viewed movies

  function Ids(ms: seq<Movie>): seq<MovieId> {
    seq(|ms|, i requires 0 <= i < |ms| => ms[i].id)
  }

  /** The loop over `recommended_movies` with `seen_ids` starting as the viewed ids. */
  method DedupCandidates(pool: seq<Movie>, viewed: seq<MovieId>) returns (unique: seq<Movie>)
    ensures unique == Dedup(pool, MovieKey, AsSet(viewed))
  {
    var seen := AsSet(viewed);
    unique := [];
    var i := 0;
    while i < |pool|
      invariant 0 <= i <= |pool|
      invariant unique == Dedup(pool[..i], MovieKey, AsSet(viewed))
      invariant seen == AsSet(viewed) + Keys(pool[..i], MovieKey)
    {
      var movie := pool[i];
      assert pool[..i + 1][..i] == pool[..i];
      assert pool[..i + 1] == pool[..i] + [movie];
      KeysSnoc(pool[..i], movie, MovieKey);
      if movie.id !in seen {
        unique := unique + [movie];
        seen := seen + {movie.id};
      }
      i := i + 1;
    }
    assert pool[..i] == pool;
  }

  /** The unique candidates: no viewed id, no id twice, and every unviewed id
      of the pool represented. */
  lemma UniqueCandidates(pool: seq<Movie>, viewed: seq<MovieId>)
    ensures forall m :: m in Dedup(pool, MovieKey, AsSet(viewed)) ==> m in pool && m.id !in viewed
    ensures DistinctKeys(Dedup(pool, MovieKey, AsSet(viewed)), MovieKey)
    ensures forall m :: m in pool && m.id !in viewed ==> exists u :: u in Dedup(pool, MovieKey, AsSet(viewed)) && u.id == m.id
  {
    var u := Dedup(pool, MovieKey, AsSet(viewed));
    DedupFacts(pool, MovieKey, AsSet(viewed));
    forall m | m in pool && m.id !in viewed ensures exists v :: v in u && v.id == m.id {
      assert MovieKey(m) in Keys(pool, MovieKey);
      assert MovieKey(m) in Keys(u, MovieKey);
    }
  }

  /** Each unique candidate is the first pool entry with its id, and they keep
      the pool's order. */
  lemma UniqueFirstOccurrences(pool: seq<Movie>, viewed: seq<MovieId>)
    ensures forall k :: 0 <= k < |Dedup(pool, MovieKey, AsSet(viewed))| ==>
      FirstIndex(Ids(pool), Dedup(pool, MovieKey, AsSet(viewed))[k].id) < |pool| &&
      pool[FirstIndex(Ids(pool), Dedup(pool, MovieKey, AsSet(viewed))[k].id)] == Dedup(pool, MovieKey, AsSet(viewed))[k]
    ensures forall k, l :: 0 <= k < l < |Dedup(pool, MovieKey, AsSet(viewed))| ==>
      FirstIndex(Ids(pool), Dedup(pool, MovieKey, AsSet(viewed))[k].id) < FirstIndex(Ids(pool), Dedup(pool, MovieKey, AsSet(viewed))[l].id)
  {
    var u := Dedup(pool, MovieKey, AsSet(viewed));
    var ids := Ids(pool);
    var idx := DedupKeepsFirst(pool, MovieKey, AsSet(viewed));
    forall k | 0 <= k < |u| ensures FirstIndex(ids, u[k].id) == idx[k] {
      forall j | 0 <= j < idx[k] ensures ids[j] != ids[idx[k]] {
        assert MovieKey(pool[j]) != MovieKey(pool[idx[k]]);
      }
      FirstAt(ids, idx[k]);
    }
  }

  lemma FirstAt(s: seq<MovieId>, i: nat)
    requires i < |s| && forall j :: 0 <= j < i ==> s[j] != s[i]
    ensures FirstIndex(s, s[i]) == i
  {
    var f := IndexOf(s, s[i]);
    assert f <= i;
  }

  // ---------------------------------------------------------------------------
  // Scoring

  /** What a candidate is scored against: the genres of the liked movies, the
      preferred languages (after extension) and all the user's genres. */
  datatype ScoreContext = ScoreContext(likedGenres: set<GenreId>, preferred: seq<string>, userGenres: set<GenreId>)

  const LikedGenrePoints: int := 8
  const TopLanguagePoints: int := 10
  const LanguageRankStep: int := 2
  const GenrePoints: int := 5

  /** `len(set(movie_genre_ids) & genres)`. */
  function GenreMatches(m: Movie, genres: set<GenreId>): nat {
    |AsSet(m.genreIds) * genres|
  }

  /** `10 - 2 * preferred_languages.index(lang)` for a preferred language, else 0. */
  function LanguagePoints(m: Movie, preferred: seq<string>): int {
    if m.originalLanguage in preferred
    then TopLanguagePoints - LanguageRankStep * IndexOf(preferred, m.originalLanguage)
    else 0
  }

  /** The integer part of the score. */
  function BaseScore(m: Movie, ctx: ScoreContext): int {
    (if ctx.likedGenres != {} then LikedGenrePoints * GenreMatches(m, ctx.likedGenres) else 0)
    + LanguagePoints(m, ctx.preferred)
    + GenrePoints * GenreMatches(m, ctx.userGenres)
  }

  /** The whole score: the integer part plus the popularity, rating and
      release-year terms, which `extra` stands for. */
  function TotalScore(m: Movie, ctx: ScoreContext, extra: Movie -> int): int {
    BaseScore(m, ctx) + extra(m)
  }

  /** A language at rank r of a duplicate-free preference list is worth 10 - 2r.
      From rank 6 on the points are negative. */
  lemma LanguagePointsAtRank(m: Movie, preferred: seq<string>, r: nat)
    requires Distinct(preferred) && r < |preferred| && m.originalLanguage == preferred[r]
    ensures LanguagePoints(m, preferred) == 10 - 2 * r
    ensures r >= 6 ==> LanguagePoints(m, preferred) < 0
  {
    IndexOfDistinct(preferred, r);
  }

  lemma MatchesWithGenre(gs: seq<GenreId>, g: GenreId, genres: set<GenreId>)
    requires g !in gs
    ensures |AsSet(gs + [g]) * genres| == |AsSet(gs) * genres| + (if g in genres then 1 else 0)
  {
    var a := AsSet(gs) * genres;
    assert g !in a;
    if g in genres {
      assert AsSet(gs + [g]) * genres == a + {g};
    } else {
      assert AsSet(gs + [g]) * genres == a;
    }
  }

  /** Listing one more genre adds 8 points when the genre is liked and 5 when it
      is one of the user's genres, and changes nothing else. */
  lemma AddGenreScore(m: Movie, g: GenreId, ctx: ScoreContext)
    requires g !in m.genreIds
    ensures BaseScore(m.(genreIds := m.genreIds + [g]), ctx) ==
      BaseScore(m, ctx) + (if g in ctx.likedGenres then LikedGenrePoints else 0) + (if g in ctx.userGenres then GenrePoints else 0)
  {
    MatchesWithGenre(m.genreIds, g, ctx.likedGenres);
    MatchesWithGenre(m.genreIds, g, ctx.userGenres);
  }

  /** `scored_movies`: each unique candidate with its score, in order. */
  function Scored(ms: seq<Movie>, ctx: ScoreContext, extra: Movie -> int): seq<(int, Movie)> {
    seq(|ms|, i requires 0 <= i < |ms| => (TotalScore(ms[i], ctx, extra), ms[i]))
  }

  /** The scoring loop. */
  method ScoreCandidates(unique: seq<Movie>, ctx: ScoreContext, extra: Movie -> int) returns (scored: seq<(int, Movie)>)
    ensures scored == Scored(unique, ctx, extra)
  {
    scored := [];
    var i := 0;
    while i < |unique|
      invariant 0 <= i <= |unique|
      invariant scored == Scored(unique[..i], ctx, extra)
    {
      var movie := unique[i];
      var score := 0;
      if ctx.likedGenres != {} {
        score := score + LikedGenrePoints * GenreMatches(movie, ctx.likedGenres);
      }
      if movie.originalLanguage in ctx.preferred {
        var rank := IndexOf(ctx.preferred, movie.originalLanguage);
        score := score + (TopLanguagePoints - rank * LanguageRankStep);
      }
      score := score + GenreMatches(movie, ctx.userGenres) * GenrePoints;
      score := score + extra(movie);
      assert score == TotalScore(movie, ctx, extra);
      ScoredStep(unique, i, ctx, extra);
      scored := scored + [(score, movie)];
      i := i + 1;
    }
    assert unique[..i] == unique;
  }

  lemma ScoredStep(ms: seq<Movie>, i: nat, ctx: ScoreContext, extra: Movie -> int)
    requires i < |ms|
    ensures Scored(ms[..i + 1], ctx, extra) == Scored(ms[..i], ctx, extra) + [(TotalScore(ms[i], ctx, extra), ms[i])]
  {
    var a, b := Scored(ms[..i + 1], ctx, extra), Scored(ms[..i], ctx, extra) + [(TotalScore(ms[i], ctx, extra), ms[i])];
    assert |a| == |b|;
    forall k | 0 <= k < |a| ensures a[k] == b[k] {
      assert ms[..i + 1][k] == ms[k];
    }
  }

  // ---------------------------------------------------------------------------
  // Selection

  function ScoreOf(p: (int, Movie)): int { p.0 }

  function MoviesOf(ps: seq<(int, Movie)>): (r: seq<Movie>)
    ensures |r| == |ps| && forall i :: 0 <= i < |ps| ==> r[i] == ps[i].1
  {
    seq(|ps|, i requires 0 <= i < |ps| => ps[i].1)
  }

  /** `scored_movies.sort(key=score, reverse=True)` then the movies of the first
      `top_n`. */
  function SelectTop(scored: seq<(int, Movie)>, topN: int): seq<Movie> {
    MoviesOf(Take(SortDesc(scored, ScoreOf), topN))
  }

  function PairId(p: (int, Movie)): MovieId { p.1.id }

  /** Every scored pair carries its movie's score. */
  lemma ScoredFacts(unique: seq<Movie>, ctx: ScoreContext, extra: Movie -> int)
    ensures forall p :: p in SortDesc(Scored(unique, ctx, extra), ScoreOf) ==> p.0 == TotalScore(p.1, ctx, extra) && p.1 in unique
    ensures |SortDesc(Scored(unique, ctx, extra), ScoreOf)| == |unique|
  {
    SortDescMembers(Scored(unique, ctx, extra), ScoreOf);
    SortDescSorted(Scored(unique, ctx, extra), ScoreOf);
  }

  /** The selection holds the min(top_n, candidates) best scored candidates
      (none left out scores above a kept one), in non-increasing order of score. */
  lemma SelectTopRanked(unique: seq<Movie>, ctx: ScoreContext, extra: Movie -> int, topN: int)
    ensures 0 <= topN ==> |SelectTop(Scored(unique, ctx, extra), topN)| == Min(topN, |unique|)
    ensures |SelectTop(Scored(unique, ctx, extra), topN)| <= |unique|
    ensures forall m :: m in SelectTop(Scored(unique, ctx, extra), topN) ==> m in unique
    ensures forall i, j :: 0 <= i < j < |SelectTop(Scored(unique, ctx, extra), topN)| ==>
      TotalScore(SelectTop(Scored(unique, ctx, extra), topN)[i], ctx, extra) >= TotalScore(SelectTop(Scored(unique, ctx, extra), topN)[j], ctx, extra)
    ensures KeepsBest(unique, SelectTop(Scored(unique, ctx, extra), topN), ScoreBy(ctx, extra))
  {
    SelectTopBest(unique, ctx, extra, topN);
    var sorted := SortDesc(Scored(unique, ctx, extra), ScoreOf);
    ScoredFacts(unique, ctx, extra);
    SortDescSorted(Scored(unique, ctx, extra), ScoreOf);
    var t := Take(sorted, topN);
    var r := MoviesOf(t);
    assert t <= sorted;
    forall i | 0 <= i < |r| ensures ScoreOf(t[i]) == TotalScore(r[i], ctx, extra) && r[i] in unique {
      assert t[i] == sorted[i] && sorted[i] in sorted;
    }
    forall m | m in r ensures m in unique {
      var i :| 0 <= i < |r| && r[i] == m;
    }
    forall i, j | 0 <= i < j < |r| ensures TotalScore(r[i], ctx, extra) >= TotalScore(r[j], ctx, extra) {
      assert t[i] == sorted[i] && t[j] == sorted[j];
    }
  }

  /** A movie's score as a key. */
  function ScoreBy(ctx: ScoreContext, extra: Movie -> int): Movie -> int {
    m => TotalScore(m, ctx, extra)
  }

  lemma MoviesOfAppend(a: seq<(int, Movie)>, b: seq<(int, Movie)>)
    ensures MoviesOf(a + b) == MoviesOf(a) + MoviesOf(b)
  {
  }

  lemma MoviesOfCons(s: seq<(int, Movie)>)
    requires s != []
    ensures MoviesOf(s) == [s[0].1] + MoviesOf(s[1..])
  {
  }

  /** Inserting a pair into the sorted part adds its movie and nothing else. */
  lemma {:induction false} InsertMovies(x: (int, Movie), s: seq<(int, Movie)>)
    ensures multiset(MoviesOf(Insert(x, s, ScoreOf))) == multiset(MoviesOf(s)) + multiset{x.1}
    decreases |s|
  {
    if s == [] {
    } else if ScoreOf(x) >= ScoreOf(s[0]) {
      MoviesOfAppend([x], s);
    } else {
      InsertMovies(x, s[1..]);
      MoviesOfAppend([s[0]], Insert(x, s[1..], ScoreOf));
      MoviesOfAppend([s[0]], s[1..]);
      assert s == [s[0]] + s[1..];
    }
  }

  /** Sorting the pairs permutes their movies. */
  lemma {:induction false} SortDescMovies(s: seq<(int, Movie)>)
    ensures multiset(MoviesOf(SortDesc(s, ScoreOf))) == multiset(MoviesOf(s))
    decreases |s|
  {
    if s != [] {
      var t := SortDesc(s[1..], ScoreOf);
      SortDescMovies(s[1..]);
      InsertMovies(s[0], t);
      MoviesOfCons(s);
      assert multiset(MoviesOf(s)) == multiset{s[0].1} + multiset(MoviesOf(s[1..]));
    }
  }

  /** The selection takes the best scored candidates: it is drawn from them,
      and no candidate left out scores above a kept one. */
  lemma SelectTopBest(unique: seq<Movie>, ctx: ScoreContext, extra: Movie -> int, topN: int)
    ensures KeepsBest(unique, SelectTop(Scored(unique, ctx, extra), topN), ScoreBy(ctx, extra))
  {
    var sc := Scored(unique, ctx, extra);
    var sorted := SortDesc(sc, ScoreOf);
    ScoredFacts(unique, ctx, extra);
    SortDescSorted(sc, ScoreOf);
    SortDescMovies(sc);
    assert MoviesOf(sc) == unique;
    var t := Take(sorted, topN);
    assert t == sorted[..|t|];
    PairsPrefixBest(unique, sorted, |t|, ScoreBy(ctx, extra));
  }

  /** A prefix of score-ordered pairs, each carrying its movie's score, whose
      movies are a permutation of the candidates, keeps the best of them.
      StableSort.SortedPrefixBest does not apply directly: the sort permutes the
      (score, movie) pairs, while the selection returns their movies, so the
      multisets compared here are of movies. */
  lemma PairsPrefixBest(unique: seq<Movie>, sorted: seq<(int, Movie)>, k: nat, score: Movie -> int)
    requires multiset(MoviesOf(sorted)) == multiset(unique) && SortedDesc(sorted, ScoreOf)
    requires forall p :: p in sorted ==> p.0 == score(p.1)
    requires k <= |sorted|
    ensures KeepsBest(unique, MoviesOf(sorted[..k]), score)
  {
    var r := MoviesOf(sorted[..k]);
    PairsSplit(unique, sorted, k);
    forall x, y | x in multiset(unique) - multiset(r) && y in r ensures score(x) <= score(y) {
      PairsOrdered(sorted, k, score, x, y);
    }
  }

  lemma PairsSplit(unique: seq<Movie>, sorted: seq<(int, Movie)>, k: nat)
    requires multiset(MoviesOf(sorted)) == multiset(unique) && k <= |sorted|
    ensures multiset(MoviesOf(sorted[..k])) <= multiset(unique)
    ensures multiset(unique) - multiset(MoviesOf(sorted[..k])) == multiset(MoviesOf(sorted[k..]))
  {
    assert sorted == sorted[..k] + sorted[k..];
    MoviesOfAppend(sorted[..k], sorted[k..]);
  }

  lemma PairsOrdered(sorted: seq<(int, Movie)>, k: nat, score: Movie -> int, x: Movie, y: Movie)
    requires SortedDesc(sorted, ScoreOf) && k <= |sorted|
    requires forall p :: p in sorted ==> p.0 == score(p.1)
    requires x in MoviesOf(sorted[k..]) && y in MoviesOf(sorted[..k])
    ensures score(x) <= score(y)
  {
    var back, front := sorted[k..], sorted[..k];
    var j :| 0 <= j < |back| && MoviesOf(back)[j] == x;
    var i :| 0 <= i < |front| && MoviesOf(front)[i] == y;
    assert back[j] == sorted[k + j] && front[i] == sorted[i];
    assert sorted[k + j] in sorted && sorted[i] in sorted;
  }

  /** With duplicate-free candidate ids, the selection has no id twice. */
  lemma SelectTopDistinct(unique: seq<Movie>, ctx: ScoreContext, extra: Movie -> int, topN: int)
    requires DistinctKeys(unique, MovieKey)
    ensures DistinctKeys(SelectTop(Scored(unique, ctx, extra), topN), MovieKey)
  {
    var sc := Scored(unique, ctx, extra);
    var sorted := SortDesc(sc, ScoreOf);
    forall i, j | 0 <= i < j < |sc| ensures PairId(sc[i]) != PairId(sc[j]) {
      assert MovieKey(unique[i]) != MovieKey(unique[j]);
    }
    SortDescDistinctKeys(sc, ScoreOf, PairId);
    ScoredFacts(unique, ctx, extra);
    var t := Take(sorted, topN);
    var r := MoviesOf(t);
    assert t <= sorted;
    forall i, j | 0 <= i < j < |r| ensures MovieKey(r[i]) != MovieKey(r[j]) {
      assert t[i] == sorted[i] && t[j] == sorted[j];
      assert PairId(sorted[i]) != PairId(sorted[j]);
    }
  }

  /** With duplicate-free candidate ids, candidates with equal scores keep their
      candidate order in the selection. */
  lemma SelectTopTies(unique: seq<Movie>, ctx: ScoreContext, extra: Movie -> int, topN: int)
    requires DistinctKeys(unique, MovieKey)
    ensures forall i, j ::
      0 <= i < j < |SelectTop(Scored(unique, ctx, extra), topN)| &&
      TotalScore(SelectTop(Scored(unique, ctx, extra), topN)[i], ctx, extra) == TotalScore(SelectTop(Scored(unique, ctx, extra), topN)[j], ctx, extra)
      ==>
      FirstIndex(Ids(unique), SelectTop(Scored(unique, ctx, extra), topN)[i].id) < FirstIndex(Ids(unique), SelectTop(Scored(unique, ctx, extra), topN)[j].id)
  {
    var sc := Scored(unique, ctx, extra);
    var sorted := SortDesc(sc, ScoreOf);
    var ids := Ids(unique);
    var rank := p => FirstIndex(ids, PairId(p));
    forall i | 0 <= i < |sc| ensures rank(sc[i]) == i {
      forall j | 0 <= j < i ensures ids[j] != ids[i] {
        assert MovieKey(unique[j]) != MovieKey(unique[i]);
      }
      FirstAt(ids, i);
    }
    SortDescTiesRanked(sc, ScoreOf, rank);
    ScoredFacts(unique, ctx, extra);
    var t := Take(sorted, topN);
    var r := MoviesOf(t);
    assert t <= sorted;
    forall i, j | 0 <= i < j < |r| && TotalScore(r[i], ctx, extra) == TotalScore(r[j], ctx, extra)
      ensures FirstIndex(ids, r[i].id) < FirstIndex(ids, r[j].id)
    {
      assert t[i] == sorted[i] && t[j] == sorted[j];
      assert sorted[i] in sorted && sorted[j] in sorted;
      assert ScoreOf(sorted[i]) == ScoreOf(sorted[j]);
      assert rank(sorted[i]) < rank(sorted[j]);
    }
  }

  /** With duplicate-free candidate ids, the selection has no id twice, and
      candidates with equal scores keep their candidate order: the two facts the
      whole recommendation uses, proved apart to keep each proof small. */
  lemma SelectTopStable(unique: seq<Movie>, ctx: ScoreContext, extra: Movie -> int, topN: int)
    requires DistinctKeys(unique, MovieKey)
    ensures DistinctKeys(SelectTop(Scored(unique, ctx, extra), topN), MovieKey)
    ensures forall i, j ::
      0 <= i < j < |SelectTop(Scored(unique, ctx, extra), topN)| &&
      TotalScore(SelectTop(Scored(unique, ctx, extra), topN)[i], ctx, extra) == TotalScore(SelectTop(Scored(unique, ctx, extra), topN)[j], ctx, extra)
      ==>
      FirstIndex(Ids(unique), SelectTop(Scored(unique, ctx, extra), topN)[i].id) < FirstIndex(Ids(unique), SelectTop(Scored(unique, ctx, extra), topN)[j].id)
  {
    SelectTopDistinct(unique, ctx, extra, topN);
    SelectTopTies(unique, ctx, extra, topN);
  }
}
