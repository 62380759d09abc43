/** The MapStruct mapper between WatchedMovie, its request body and its
    response body. The request names the user and the movie by id; the
    entity refers to them through id-only shells. */
module WatchedMovieMapper {
  import opened Common
  import opened Entities
  import opened Dtos

  /** toDto: userId is user.id and movieId is movie.id; the record's own id
      and timestamps are copied. */
  function ToDto(w: WatchedMovie): (r: WatchedMovieDto)
    ensures r.userId == w.user.id && r.movieId == w.movie.id
    ensures r.id == w.id && r.watchedAt == w.watchedAt
    ensures r.createAt == w.createAt && r.updateAt == w.updateAt
  {
    WatchedMovieDto(w.id, w.user.id, w.movie.id, w.watchedAt, w.createAt, w.updateAt)
  }

  /** mapIdToUser: a user carrying the given id and nothing else. */
  function MapIdToUser(id: int): (r: User)
    ensures r.id == Some(id)
    ensures r.username.None? && r.createAt.None? && r.updateAt.None? && r.watchedMovies == {}
  {
    User(Some(id), None, {}, None, None)
  }

  /** mapIdToMovie: a movie carrying the given id and nothing else. */
  function MapIdToMovie(id: int): (r: Movie)
    ensures r.id == Some(id)
    ensures r.title.None? && r.description.None? && r.year.None? && r.releaseDate.None?
    ensures r.worldGross.None? && r.budget.None? && r.ageRating.None? && r.durationMinutes.None?
    ensures r.genres == {} && r.countries == {} && r.watchedMovies == {}
    ensures r.createAt.None? && r.updateAt.None?
  {
    Movie(Some(id), None, None, None, None, None, None, None, None, {}, {}, {}, None, None)
  }

  /** toEntity: a record pointing at the user and movie shells of the
      request's ids; id and all three timestamps are ignored. */
  function ToEntity(req: WatchedMovieRequest): (r: WatchedMovie)
    ensures r.user == MapIdToUser(req.userId) && r.movie == MapIdToMovie(req.movieId)
    ensures r.id.None? && r.watchedAt.None? && r.createAt.None? && r.updateAt.None?
  {
    WatchedMovie(None, MapIdToUser(req.userId), MapIdToMovie(req.movieId), None, None, None)
  }

  /** Mapping a request to an entity and back to a response preserves both
      ids: the response names the user and movie the request named. */
  lemma RoundTripKeepsIds(req: WatchedMovieRequest)
    ensures ToDto(ToEntity(req)).userId == Some(req.userId)
    ensures ToDto(ToEntity(req)).movieId == Some(req.movieId)
  {
  }
}
