/** Poster URLs as the app shows them: a missing, "N/A" or empty poster is
    replaced by a fixed placeholder image. */
module Posters {
  import opened PyLists

  const NoImage: string := "https://via.placeholder.com/300x450?text=No+Image"
  const BlankImage: string := "https://via.placeholder.com/300x450"

  /** The part of an OMDb answer the app reads; None for a missing "Poster" key. */
  datatype OmdbRecord = OmdbRecord(poster: Option<string>)

  /** `poster in [None, "N/A", ""]`. */
  predicate Missing(p: Option<string>) {
    p.None? || p.value == "N/A" || p.value == ""
  }

  /** The placeholder replacement. */
  function NormalizePoster(p: Option<string>): (r: string)
    ensures Missing(p) ==> r == NoImage
    ensures !Missing(p) ==> r == p.value
    ensures !Missing(Some(r))
  {
    if Missing(p) then NoImage else p.value
  }

  /** Normalising an already normalised poster changes nothing. */
  lemma NormalizeIdempotent(p: Option<string>)
    ensures NormalizePoster(Some(NormalizePoster(p))) == NormalizePoster(p)
  {
  }

  /** The poster of a recommendation: none when the lookup failed. */
  function RecommendPoster(details: Option<OmdbRecord>): string {
    NormalizePoster(if details.Some? then details.value.poster else None)
  }

  /** The poster of a trending card: the bare placeholder when the lookup failed. */
  function TrendingPoster(details: Option<OmdbRecord>): string {
    NormalizePoster(if details.Some? then details.value.poster else Some(BlankImage))
  }

  /** A failed lookup shows the "No Image" placeholder on a recommendation and
      the bare placeholder on a trending card; a successful one shows the same
      poster on both; no card is ever left with a missing poster. */
  lemma PosterFacts(details: Option<OmdbRecord>)
    ensures details.None? ==> RecommendPoster(details) == NoImage && TrendingPoster(details) == BlankImage
    ensures details.Some? ==> RecommendPoster(details) == TrendingPoster(details)
    ensures !Missing(Some(RecommendPoster(details))) && !Missing(Some(TrendingPoster(details)))
    ensures details.Some? && !Missing(details.value.poster) ==> RecommendPoster(details) == details.value.poster.value
  {
  }
}
