/** The MapStruct mapper between Movie, its request body and its response
    body. Genres and countries are mapped element-wise with the genre and
    country mappers. */
module MovieMapper {
  import opened Common
  import opened Entities
  import opened Dtos
  import opened Repository
  import GenreMapper
  import CountryMapper

  /** toDto: the scalar fields, the id and the timestamps are copied; each
      genre and each country becomes its own response. Reading the movie's
      genres and countries loads them from the genre and country tables as
      they are when the response is built: a linked id with no row left
      yields nothing. */
  function ToDto(m: Movie, genres: Repo<Genre>, countries: Repo<Country>): (r: MovieDto)
    ensures r.id == m.id && r.createAt == m.createAt && r.updateAt == m.updateAt
    ensures r.title == m.title && r.description == m.description && r.year == m.year
    ensures r.releaseDate == m.releaseDate && r.worldGross == m.worldGross && r.budget == m.budget
    ensures r.ageRating == m.ageRating && r.durationMinutes == m.durationMinutes
    ensures forall k | k in m.genres && k in genres.rows :: GenreMapper.ToDto(genres.rows[k]) in r.genres
    ensures forall d | d in r.genres :: exists k | k in m.genres && k in genres.rows :: GenreMapper.ToDto(genres.rows[k]) == d
    ensures forall k | k in m.countries && k in countries.rows :: CountryMapper.ToDto(countries.rows[k]) in r.countries
    ensures forall d | d in r.countries ::
      exists k | k in m.countries && k in countries.rows :: CountryMapper.ToDto(countries.rows[k]) == d
  {
    MovieDto(
      m.id, m.title, m.description, m.year, m.releaseDate, m.worldGross, m.budget,
      m.ageRating, m.durationMinutes,
      set g | g in genres.FindAllById(m.genres) :: GenreMapper.ToDto(g),
      set c | c in countries.FindAllById(m.countries) :: CountryMapper.ToDto(c),
      m.createAt, m.updateAt)
  }

  /** toEntity: the eight scalar fields come from the request; id,
      timestamps, genres, countries and watched movies are ignored, so they
      keep the builder's defaults (null, and empty sets). */
  function ToEntity(req: MovieRequest): (r: Movie)
    ensures r.title == req.title && r.description == req.description && r.year == req.year
    ensures r.releaseDate == req.releaseDate && r.worldGross == req.worldGross
    ensures r.budget == req.budget && r.ageRating == req.ageRating
    ensures r.durationMinutes == req.durationMinutes
    ensures r.id.None? && r.createAt.None? && r.updateAt.None?
    ensures r.genres == {} && r.countries == {} && r.watchedMovies == {}
  {
    Movie(None, req.title, req.description, req.year, req.releaseDate, req.worldGross,
          req.budget, req.ageRating, req.durationMinutes, {}, {}, {}, None, None)
  }

  /** partialUpdate: each non-null scalar field of the request overwrites the
      target's, each null one leaves it; id, timestamps, genres, countries
      and watched movies are never touched (the id sets have no counterpart
      on the entity). */
  function PartialUpdate(req: MovieRequest, target: Movie): (r: Movie)
    ensures req.title.Some? ==> r.title == req.title
    ensures req.title.None? ==> r.title == target.title
    ensures req.description.Some? ==> r.description == req.description
    ensures req.description.None? ==> r.description == target.description
    ensures req.year.Some? ==> r.year == req.year
    ensures req.year.None? ==> r.year == target.year
    ensures req.releaseDate.Some? ==> r.releaseDate == req.releaseDate
    ensures req.releaseDate.None? ==> r.releaseDate == target.releaseDate
    ensures req.worldGross.Some? ==> r.worldGross == req.worldGross
    ensures req.worldGross.None? ==> r.worldGross == target.worldGross
    ensures req.budget.Some? ==> r.budget == req.budget
    ensures req.budget.None? ==> r.budget == target.budget
    ensures req.ageRating.Some? ==> r.ageRating == req.ageRating
    ensures req.ageRating.None? ==> r.ageRating == target.ageRating
    ensures req.durationMinutes.Some? ==> r.durationMinutes == req.durationMinutes
    ensures req.durationMinutes.None? ==> r.durationMinutes == target.durationMinutes
    ensures r.id == target.id && r.createAt == target.createAt && r.updateAt == target.updateAt
    ensures r.genres == target.genres && r.countries == target.countries
    ensures r.watchedMovies == target.watchedMovies
  {
    target.(
      title := Merge(req.title, target.title),
      description := Merge(req.description, target.description),
      year := Merge(req.year, target.year),
      releaseDate := Merge(req.releaseDate, target.releaseDate),
      worldGross := Merge(req.worldGross, target.worldGross),
      budget := Merge(req.budget, target.budget),
      ageRating := Merge(req.ageRating, target.ageRating),
      durationMinutes := Merge(req.durationMinutes, target.durationMinutes))
  }

  /** A request whose scalar fields are all null. */
  predicate NoScalarFields(req: MovieRequest)
  {
    && req.title.None? && req.description.None? && req.year.None? && req.releaseDate.None?
    && req.worldGross.None? && req.budget.None? && req.ageRating.None? && req.durationMinutes.None?
  }

  /** Applying the same request twice is applying it once. */
  lemma PartialUpdateIdempotent(req: MovieRequest, target: Movie)
    ensures PartialUpdate(req, PartialUpdate(req, target)) == PartialUpdate(req, target)
  {
  }

  /** A request with nothing to say leaves the movie exactly as it was. */
  lemma PartialUpdateOfEmptyRequest(req: MovieRequest, target: Movie)
    requires NoScalarFields(req)
    ensures PartialUpdate(req, target) == target
  {
  }

  /** Updating a fresh entity built from the same request changes nothing:
      the entity already states everything the request states. */
  lemma PartialUpdateOfOwnEntity(req: MovieRequest)
    ensures PartialUpdate(req, ToEntity(req)) == ToEntity(req)
  {
  }

  /** mapIdToGenre: a genre carrying the given id and nothing else. */
  function MapIdToGenre(id: int): (r: Genre)
    ensures r.id == Some(id)
    ensures r.name.None? && r.createAt.None? && r.updateAt.None? && r.movies == {}
  {
    Genre(Some(id), None, {}, None, None)
  }

  /** mapIdToCountry: a country carrying the given id and nothing else. */
  function MapIdToCountry(id: int): (r: Country)
    ensures r.id == Some(id)
    ensures r.name.None? && r.createAt.None? && r.updateAt.None? && r.movies == {}
  {
    Country(Some(id), None, {}, None, None)
  }
}
