/** The records of the movie-catalogue API that the recommender reads, reduced to
    the fields it uses. A field the API may leave out is an Option (None: the key
    is absent). */
module Catalog {
  import opened PyLists

  type MovieId = int
  type GenreId = int

  /** An entry of a list endpoint (trending, discover, popular, by genre or
      language). A missing `genre_ids` reads as [] and a missing (or null)
      `original_language` as "", as `movie.get(...)` with those defaults does. */
  datatype Movie = Movie(id: MovieId, genreIds: seq<GenreId>, originalLanguage: string)

  datatype Genre = Genre(id: GenreId, name: string)

  datatype CrewMember = CrewMember(name: string, job: string)

  /** `credits`: the crew and the cast (each cast member given by name). */
  datatype Credits = Credits(crew: Option<seq<CrewMember>>, cast: Option<seq<string>>)

  /** `keywords`: an object whose own `keywords` list holds the keyword names. */
  datatype KeywordBlock = KeywordBlock(keywords: Option<seq<string>>)

  /** A movie-details record with its appended `keywords` and `credits`. */
  datatype Details = Details(
    genres: Option<seq<Genre>>,
    keywords: Option<KeywordBlock>,
    credits: Option<Credits>,
    overview: Option<string>)
}
