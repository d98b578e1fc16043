/** The app's `recommend(movie_name, num_movies)`: the thirty movies most similar
    to the chosen one, re-ordered by rating, the first `num_movies` of them with
    their posters. The catalogue table, the similarity matrix and the OMDb
    lookup are parameters. */
module SimilarityRecommend {
  import opened PyLists
  import opened StableSort
  import opened Posters

  /** A catalogue row: its title and its `vote_average` (None when the column is absent). */
  datatype CatalogueEntry = CatalogueEntry(title: string, voteAverage: Option<int>)

  /** The exceptions `recommend` lets through. */
  datatype Failure =
    | TitleNotFound       // `.index[0]` of an empty selection
    | NoSimilarityRow     // `similarity[index]` past the matrix
    | CandidateNotInTable // `movies.iloc[i]` past the table

  datatype Result<T> = Ok(value: T) | Err(error: Failure)

  /** An entry of `recommendations`. */
  datatype Pick = Pick(title: string, rating: int)

  /** What `recommend` returns. */
  datatype Shown = Shown(names: seq<string>, posters: seq<string>)

  const CandidateStart: int := 1
  const CandidateEnd: int := 31
  const MaxRecommendations: int := 30

  /** `list(enumerate(row))`. */
  function Enumerate(row: seq<int>): (r: seq<(nat, int)>)
    ensures |r| == |row| && forall i :: 0 <= i < |row| ==> r[i] == (i, row[i])
  {
    seq(|row|, i requires 0 <= i < |row| => (i, row[i]))
  }

  function Similarity(p: (nat, int)): int { p.1 }

  /** The whole row sorted by non-increasing similarity. */
  function Ordering(row: seq<int>): seq<(nat, int)> {
    SortDesc(Enumerate(row), Similarity)
  }

  /** `sorted(...)[1:31]`: the first entry, taken to be the movie itself, dropped. */
  function Candidates(row: seq<int>): seq<(nat, int)> {
    PySlice(Ordering(row), CandidateStart, CandidateEnd)
  }

  function Position(p: (nat, int)): nat { p.0 }

  /** The ordering is a permutation of the enumerated row, by non-increasing
      similarity, with every position once. */
  lemma OrderingFacts(row: seq<int>)
    ensures multiset(Ordering(row)) == multiset(Enumerate(row))
    ensures |Ordering(row)| == |row|
    ensures forall i, j :: 0 <= i < j < |Ordering(row)| ==> Ordering(row)[i].1 >= Ordering(row)[j].1
    ensures forall i, j :: 0 <= i < j < |Ordering(row)| ==> Ordering(row)[i].0 != Ordering(row)[j].0
    ensures forall c :: c in Ordering(row) ==> c.0 < |row| && c.1 == row[c.0]
  {
    var e := Enumerate(row);
    SortDescSorted(e, Similarity);
    SortDescDistinctKeys(e, Similarity, Position);
    forall c | c in Ordering(row) ensures c.0 < |row| && c.1 == row[c.0] {
      assert c in multiset(Ordering(row));
      assert c in multiset(e);
      var i :| 0 <= i < |e| && e[i] == c;
    }
  }

  /** Dropping the first entry of a list ordered by similarity, with distinct
      positions, keeps it ordered and loses the first entry for good. */
  lemma TailSliceFacts(o: seq<(nat, int)>, e: nat)
    requires 1 <= e <= |o|
    requires forall i, j :: 0 <= i < j < |o| ==> o[i].1 >= o[j].1
    requires forall i, j :: 0 <= i < j < |o| ==> o[i].0 != o[j].0
    ensures o[0] !in o[1..e]
    ensures forall i, j :: 0 <= i < j < |o[1..e]| ==> o[1..e][i].1 >= o[1..e][j].1
    ensures forall x :: x in o[1..e] ==> x in o
  {
    var c := o[1..e];
    forall k | 0 <= k < |c| ensures c[k] != o[0] {
      assert c[k] == o[k + 1];
    }
    forall i, j | 0 <= i < j < |c| ensures c[i].1 >= c[j].1 {
      assert c[i] == o[i + 1] && c[j] == o[j + 1];
    }
    forall x | x in c ensures x in o {
      var k :| 0 <= k < |c| && c[k] == x;
      assert o[k + 1] == x;
    }
  }

  /** The candidates are the ordering from its second entry, at most thirty of
      them, by non-increasing similarity, each a position of the row with its
      own similarity; the ordering's first entry is never among them. */
  lemma CandidatesSpec(row: seq<int>)
    ensures |row| >= 1 ==> |Ordering(row)| == |row| && Candidates(row) == Ordering(row)[1..Min(CandidateEnd, |row|)]
    ensures |row| == 0 ==> Candidates(row) == []
    ensures |Candidates(row)| <= MaxRecommendations
    ensures |row| >= 1 ==> Ordering(row)[0] !in Candidates(row)
    ensures forall i, j :: 0 <= i < j < |Candidates(row)| ==> Candidates(row)[i].1 >= Candidates(row)[j].1
    ensures forall c :: c in Candidates(row) ==> c.0 < |row| && c.1 == row[c.0]
  {
    OrderingFacts(row);
    if |row| >= 1 {
      TailSliceFacts(Ordering(row), Min(CandidateEnd, |row|));
    }
  }

  /** The loop that looks each candidate up in the table. */
  function PicksOf(cands: seq<(nat, int)>, movies: seq<CatalogueEntry>): Result<seq<Pick>>
    decreases |cands|
  {
    if cands == [] then Ok([])
    else
      match PicksOf(cands[..|cands| - 1], movies)
      case Err(e) => Err(e)
      case Ok(ps) =>
        var i := cands[|cands| - 1].0;
        if i < |movies| then Ok(ps + [Pick(movies[i].title, movies[i].voteAverage.GetOr(0))])
        else Err(CandidateNotInTable)
  }

  /** The lookup fails exactly when a candidate lies past the table; otherwise
      there is one pick per candidate, in order, with the row's title and
      rating (0 when there is none). */
  lemma {:induction false} PicksOfSpec(cands: seq<(nat, int)>, movies: seq<CatalogueEntry>)
    ensures PicksOf(cands, movies).Err? <==> exists c :: c in cands && c.0 >= |movies|
    ensures PicksOf(cands, movies).Err? ==> PicksOf(cands, movies).error == CandidateNotInTable
    ensures PicksOf(cands, movies).Ok? ==>
      var ps := PicksOf(cands, movies).value;
      |ps| == |cands| &&
      forall k :: 0 <= k < |cands| ==> ps[k] == Pick(movies[cands[k].0].title, movies[cands[k].0].voteAverage.GetOr(0))
    decreases |cands|
  {
    if cands != [] {
      var init, last := cands[..|cands| - 1], cands[|cands| - 1];
      assert cands == init + [last];
      PicksOfSpec(init, movies);
      if exists c :: c in init && c.0 >= |movies| {
        var c :| c in init && c.0 >= |movies|;
        assert c in cands;
      }
      if exists c :: c in cands && c.0 >= |movies| {
        var c :| c in cands && c.0 >= |movies|;
        if c != last { assert c in init; }
      }
    }
  }

  function RatingOf(p: Pick): int { p.rating }

  /** `sorted(recommendations, key=rating, reverse=True)[:num_movies]`. */
  function TopPicks(picks: seq<Pick>, num: int): seq<Pick> {
    Take(SortDesc(picks, RatingOf), num)
  }

  /** The top picks are the min(num, |picks|) best rated picks: drawn from the
      picks, and no pick left out rates above a kept one. They come by
      non-increasing rating; picks with equal ratings keep their similarity order
      (their order among the top is a prefix of their order among all picks). */
  lemma TopPicksSpec(picks: seq<Pick>, num: int)
    ensures 0 <= num ==> |TopPicks(picks, num)| == Min(num, |picks|)
    ensures |TopPicks(picks, num)| <= |picks|
    ensures forall i, j :: 0 <= i < j < |TopPicks(picks, num)| ==> TopPicks(picks, num)[i].rating >= TopPicks(picks, num)[j].rating
    ensures forall p :: p in TopPicks(picks, num) ==> p in picks
    ensures forall k :: WithKey(TopPicks(picks, num), RatingOf, k) <= WithKey(picks, RatingOf, k)
    ensures num >= |picks| ==> multiset(TopPicks(picks, num)) == multiset(picks)
    ensures KeepsBest(picks, TopPicks(picks, num), RatingOf)
  {
    var s := SortDesc(picks, RatingOf);
    SortDescSorted(picks, RatingOf);
    SortDescMembers(picks, RatingOf);
    var t := TopPicks(picks, num);
    assert t == s[..|t|];
    SortDescPrefixBest(picks, RatingOf, |t|);
    forall i, j | 0 <= i < j < |t| ensures t[i].rating >= t[j].rating {
      assert t[i] == s[i] && t[j] == s[j];
    }
    forall p | p in t ensures p in picks {
      assert p in s;
    }
    forall k ensures WithKey(t, RatingOf, k) <= WithKey(picks, RatingOf, k) {
      WithKeyPrefix(s, |t|, RatingOf, k);
      SortDescStable(picks, RatingOf, k);
    }
    if num >= |picks| {
      assert t == s;
    }
  }

  /** The movie's row: the first table row with that title. */
  function FindTitle(movies: seq<CatalogueEntry>, title: string): Option<nat> {
    FindFrom(movies, title, 0)
  }

  function FindFrom(movies: seq<CatalogueEntry>, title: string, i: nat): (r: Option<nat>)
    requires i <= |movies|
    ensures r.Some? ==> i <= r.value < |movies| && movies[r.value].title == title &&
                        (forall j :: i <= j < r.value ==> movies[j].title != title)
    ensures r.None? <==> forall j :: i <= j < |movies| ==> movies[j].title != title
    decreases |movies| - i
  {
    if i == |movies| then None
    else if movies[i].title == title then Some(i)
    else FindFrom(movies, title, i + 1)
  }

  /** The names and posters of the top picks. */
  function NamesAndPosters(top: seq<Pick>, fetch: string -> Option<OmdbRecord>): (r: Shown)
    ensures |r.names| == |top| && |r.posters| == |top|
    ensures forall k :: 0 <= k < |top| ==> r.names[k] == top[k].title && r.posters[k] == RecommendPoster(fetch(top[k].title))
  {
    Shown(seq(|top|, k requires 0 <= k < |top| => top[k].title),
          seq(|top|, k requires 0 <= k < |top| => RecommendPoster(fetch(top[k].title))))
  }

  /** `recommend(movie_name, num_movies)` as a value. */
  function Recommendation(movies: seq<CatalogueEntry>, similarity: seq<seq<int>>, title: string, num: int,
                          fetch: string -> Option<OmdbRecord>): Result<Shown>
  {
    match FindTitle(movies, title)
    case None => Err(TitleNotFound)
    case Some(index) =>
      if index >= |similarity| then Err(NoSimilarityRow)
      else
        match PicksOf(Candidates(similarity[index]), movies)
        case Err(e) => Err(e)
        case Ok(picks) => Ok(NamesAndPosters(TopPicks(picks, num), fetch))
  }

  /** The call fails only as the program does: no such title, no row for it, or
      a candidate past the table. */
  lemma RecommendationErrors(movies: seq<CatalogueEntry>, similarity: seq<seq<int>>, title: string, num: int,
                             fetch: string -> Option<OmdbRecord>)
    ensures Recommendation(movies, similarity, title, num, fetch) == Err(TitleNotFound) <==>
      forall j :: 0 <= j < |movies| ==> movies[j].title != title
    ensures Recommendation(movies, similarity, title, num, fetch) == Err(NoSimilarityRow) <==>
      FindTitle(movies, title).Some? && FindTitle(movies, title).value >= |similarity|
    ensures Recommendation(movies, similarity, title, num, fetch) == Err(CandidateNotInTable) <==>
      FindTitle(movies, title).Some? && FindTitle(movies, title).value < |similarity| &&
      exists c :: c in Candidates(similarity[FindTitle(movies, title).value]) && c.0 >= |movies|
  {
    match FindTitle(movies, title)
    case None =>
    case Some(index) =>
      if index < |similarity| {
        PicksOfSpec(Candidates(similarity[index]), movies);
      }
  }

  /** The names of the top picks are titles of candidate movies. */
  lemma TopNamesFromCandidates(cands: seq<(nat, int)>, movies: seq<CatalogueEntry>, picks: seq<Pick>, num: int,
                               fetch: string -> Option<OmdbRecord>)
    requires PicksOf(cands, movies) == Ok(picks)
    ensures var r := NamesAndPosters(TopPicks(picks, num), fetch);
      forall k :: 0 <= k < |r.names| ==> exists c :: c in cands && c.0 < |movies| && movies[c.0].title == r.names[k]
  {
    PicksOfSpec(cands, movies);
    TopPicksSpec(picks, num);
    var top := TopPicks(picks, num);
    var r := NamesAndPosters(top, fetch);
    forall k | 0 <= k < |r.names| ensures exists c :: c in cands && c.0 < |movies| && movies[c.0].title == r.names[k] {
      assert top[k] in picks;
      var m :| 0 <= m < |picks| && picks[m] == top[k];
      assert cands[m] in cands;
    }
  }

  /** The names of r are those of the top picks of the similarity row: the
      candidates looked up in the table with their ratings, of which none left
      out rates above a kept one. */
  predicate NamesOfBestPicks(movies: seq<CatalogueEntry>, row: seq<int>, num: int, r: Shown) {
    PicksOf(Candidates(row), movies).Ok? &&
    var picks := PicksOf(Candidates(row), movies).value;
    var top := TopPicks(picks, num);
    |picks| == |Candidates(row)| &&
    (forall k :: 0 <= k < |picks| ==>
       Candidates(row)[k].0 < |movies| &&
       picks[k] == Pick(movies[Candidates(row)[k].0].title, movies[Candidates(row)[k].0].voteAverage.GetOr(0))) &&
    KeepsBest(picks, top, RatingOf) &&
    |r.names| == |top| && (forall k :: 0 <= k < |top| ==> r.names[k] == top[k].title)
  }

  /** A successful call returns as many names as posters, min(num, candidates)
      of each for a non-negative num, never more than thirty, every poster
      present, and every name the title of a similar movie. */
  lemma RecommendationShape(movies: seq<CatalogueEntry>, similarity: seq<seq<int>>, title: string, num: int,
                            fetch: string -> Option<OmdbRecord>)
    ensures Recommendation(movies, similarity, title, num, fetch).Ok? ==>
      var r := Recommendation(movies, similarity, title, num, fetch).value;
      var row := similarity[FindTitle(movies, title).value];
      |r.names| == |r.posters| <= MaxRecommendations &&
      (0 <= num ==> |r.names| == Min(num, |Candidates(row)|)) &&
      (forall k :: 0 <= k < |r.posters| ==> !Missing(Some(r.posters[k]))) &&
      (forall k :: 0 <= k < |r.names| ==> exists c :: c in Candidates(row) && c.0 < |movies| && movies[c.0].title == r.names[k])
  {
    match FindTitle(movies, title)
    case None =>
    case Some(index) =>
      if index < |similarity| {
        var cands := Candidates(similarity[index]);
        CandidatesSpec(similarity[index]);
        PicksOfSpec(cands, movies);
        match PicksOf(cands, movies)
        case Err(e) =>
        case Ok(picks) =>
          TopPicksSpec(picks, num);
          TopNamesFromCandidates(cands, movies, picks, num, fetch);
      }
  }

  /** A successful call names the best rated of the similar movies. */
  lemma RecommendationBest(movies: seq<CatalogueEntry>, similarity: seq<seq<int>>, title: string, num: int,
                           fetch: string -> Option<OmdbRecord>)
    ensures Recommendation(movies, similarity, title, num, fetch).Ok? ==>
      NamesOfBestPicks(movies, similarity[FindTitle(movies, title).value], num,
                       Recommendation(movies, similarity, title, num, fetch).value)
  {
    match FindTitle(movies, title)
    case None =>
    case Some(index) =>
      if index < |similarity| {
        var cands := Candidates(similarity[index]);
        PicksOfSpec(cands, movies);
        match PicksOf(cands, movies)
        case Err(e) =>
        case Ok(picks) =>
          TopPicksSpec(picks, num);
      }
  }

  /** A successful call: its shape, and the best rated similar movies. The two
      halves are proved apart to keep each proof small. */
  lemma RecommendationOk(movies: seq<CatalogueEntry>, similarity: seq<seq<int>>, title: string, num: int,
                         fetch: string -> Option<OmdbRecord>)
    ensures Recommendation(movies, similarity, title, num, fetch).Ok? ==>
      var r := Recommendation(movies, similarity, title, num, fetch).value;
      var row := similarity[FindTitle(movies, title).value];
      |r.names| == |r.posters| <= MaxRecommendations &&
      (0 <= num ==> |r.names| == Min(num, |Candidates(row)|)) &&
      (forall k :: 0 <= k < |r.posters| ==> !Missing(Some(r.posters[k]))) &&
      (forall k :: 0 <= k < |r.names| ==> exists c :: c in Candidates(row) && c.0 < |movies| && movies[c.0].title == r.names[k]) &&
      NamesOfBestPicks(movies, row, num, r)
  {
    RecommendationShape(movies, similarity, title, num, fetch);
    RecommendationBest(movies, similarity, title, num, fetch);
  }

  /** Both halves together: the errors exactly as the program raises them, and
      the shape and the choice of a successful answer. */
  lemma RecommendationSpec(movies: seq<CatalogueEntry>, similarity: seq<seq<int>>, title: string, num: int,
                           fetch: string -> Option<OmdbRecord>)
    ensures Recommendation(movies, similarity, title, num, fetch) == Err(TitleNotFound) <==>
      forall j :: 0 <= j < |movies| ==> movies[j].title != title
    ensures Recommendation(movies, similarity, title, num, fetch) == Err(NoSimilarityRow) <==>
      FindTitle(movies, title).Some? && FindTitle(movies, title).value >= |similarity|
    ensures Recommendation(movies, similarity, title, num, fetch) == Err(CandidateNotInTable) <==>
      FindTitle(movies, title).Some? && FindTitle(movies, title).value < |similarity| &&
      exists c :: c in Candidates(similarity[FindTitle(movies, title).value]) && c.0 >= |movies|
    ensures Recommendation(movies, similarity, title, num, fetch).Ok? ==>
      var r := Recommendation(movies, similarity, title, num, fetch).value;
      var row := similarity[FindTitle(movies, title).value];
      |r.names| == |r.posters| <= MaxRecommendations &&
      (0 <= num ==> |r.names| == Min(num, |Candidates(row)|)) &&
      (forall k :: 0 <= k < |r.posters| ==> !Missing(Some(r.posters[k]))) &&
      (forall k :: 0 <= k < |r.names| ==> exists c :: c in Candidates(row) && c.0 < |movies| && movies[c.0].title == r.names[k]) &&
      NamesOfBestPicks(movies, row, num, r)
  {
    RecommendationErrors(movies, similarity, title, num, fetch);
    RecommendationOk(movies, similarity, title, num, fetch);
  }

  /** `recommend`: the lookup loop over the candidates, the rating sort, and
      the loop that fetches each top pick's poster. */
  method Recommend(movies: seq<CatalogueEntry>, similarity: seq<seq<int>>, title: string, num: int,
                   fetch: string -> Option<OmdbRecord>)
    returns (r: Result<Shown>)
    ensures r == Recommendation(movies, similarity, title, num, fetch)
  {
    var found := FindTitle(movies, title);
    if found.None? {
      return Err(TitleNotFound);
    }
    var index := found.value;
    if index >= |similarity| {
      return Err(NoSimilarityRow);
    }
    var movieList := Candidates(similarity[index]);
    var recommendations: seq<Pick> := [];
    var i := 0;
    while i < |movieList|
      invariant 0 <= i <= |movieList|
      invariant PicksOf(movieList[..i], movies) == Ok(recommendations)
    {
      var row := movieList[i].0;
      PicksStep(movieList, i, movies, recommendations);
      if row >= |movies| {
        PicksPrefixErr(movieList, movies, i + 1);
        return Err(CandidateNotInTable);
      }
      recommendations := recommendations + [Pick(movies[row].title, movies[row].voteAverage.GetOr(0))];
      i := i + 1;
    }
    assert movieList[..i] == movieList;
    var topPicks := TopPicks(recommendations, num);
    var names: seq<string> := [];
    var posters: seq<string> := [];
    var k := 0;
    while k < |topPicks|
      invariant 0 <= k <= |topPicks|
      invariant names == NamesAndPosters(topPicks[..k], fetch).names
      invariant posters == NamesAndPosters(topPicks[..k], fetch).posters
    {
      var details := fetch(topPicks[k].title);
      names := names + [topPicks[k].title];
      var poster := if details.Some? then details.value.poster else None;
      posters := posters + [NormalizePoster(poster)];
      ShownStep(topPicks, k, fetch);
      k := k + 1;
    }
    assert topPicks[..k] == topPicks;
    r := Ok(Shown(names, posters));
  }

  /** One more candidate looked up: the picks grow by its pick, or the lookup fails. */
  lemma PicksStep(cands: seq<(nat, int)>, i: nat, movies: seq<CatalogueEntry>, ps: seq<Pick>)
    requires i < |cands| && PicksOf(cands[..i], movies) == Ok(ps)
    ensures cands[i].0 < |movies| ==>
      PicksOf(cands[..i + 1], movies) == Ok(ps + [Pick(movies[cands[i].0].title, movies[cands[i].0].voteAverage.GetOr(0))])
    ensures cands[i].0 >= |movies| ==> PicksOf(cands[..i + 1], movies) == Err(CandidateNotInTable)
  {
    assert cands[..i + 1][..i] == cands[..i];
  }

  /** One more top pick shown: one more name and its normalised poster. */
  lemma ShownStep(top: seq<Pick>, k: nat, fetch: string -> Option<OmdbRecord>)
    requires k < |top|
    ensures NamesAndPosters(top[..k + 1], fetch).names == NamesAndPosters(top[..k], fetch).names + [top[k].title]
    ensures NamesAndPosters(top[..k + 1], fetch).posters ==
      NamesAndPosters(top[..k], fetch).posters + [RecommendPoster(fetch(top[k].title))]
  {
  }

  /** Once the lookup fails on a prefix it fails on the whole list. */
  lemma {:induction false} PicksPrefixErr(cands: seq<(nat, int)>, movies: seq<CatalogueEntry>, n: nat)
    requires n <= |cands| && PicksOf(cands[..n], movies) == Err(CandidateNotInTable)
    ensures PicksOf(cands, movies) == Err(CandidateNotInTable)
    decreases |cands| - n
  {
    if n < |cands| {
      assert cands[..n + 1][..n] == cands[..n];
      PicksPrefixErr(cands, movies, n + 1);
    } else {
      assert cands[..n] == cands;
    }
  }
}
