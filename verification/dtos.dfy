/** The request and response bodies the services consume and produce (the
    `dtos` package), as immutable records with nullable fields. */
module Dtos {
  import opened Common

  datatype GenreRequest = GenreRequest(name: Option<string>)

  datatype GenreDto = GenreDto(
    id: Option<int>,
    name: Option<string>,
    createAt: Option<Timestamp>,
    updateAt: Option<Timestamp>)

  datatype CountryRequest = CountryRequest(name: Option<string>)

  datatype CountryDto = CountryDto(
    id: Option<int>,
    name: Option<string>,
    createAt: Option<Timestamp>,
    updateAt: Option<Timestamp>)

  datatype UserRequest = UserRequest(username: Option<string>)

  datatype UserDto = UserDto(
    id: Option<int>,
    username: Option<string>,
    createAt: Option<Timestamp>,
    updateAt: Option<Timestamp>)

  /** The movie request body. Its id sets are nullable as a whole; the
      builder's default for each is the empty set. */
  datatype MovieRequest = MovieRequest(
    title: Option<string>,
    description: Option<string>,
    year: Option<int>,
    releaseDate: Option<Date>,
    worldGross: Option<int>,
    budget: Option<int>,
    ageRating: Option<string>,
    durationMinutes: Option<int>,
    genreIds: Option<set<int>>,
    countryIds: Option<set<int>>)

  datatype MovieDto = MovieDto(
    id: Option<int>,
    title: Option<string>,
    description: Option<string>,
    year: Option<int>,
    releaseDate: Option<Date>,
    worldGross: Option<int>,
    budget: Option<int>,
    ageRating: Option<string>,
    durationMinutes: Option<int>,
    genres: set<GenreDto>,
    countries: set<CountryDto>,
    createAt: Option<Timestamp>,
    updateAt: Option<Timestamp>)

  /** The watched-movie request. The controller validates it (`@Valid`), and
      both ids are `@NotNull`, so neither is nullable here. */
  datatype WatchedMovieRequest = WatchedMovieRequest(userId: int, movieId: int)

  datatype WatchedMovieDto = WatchedMovieDto(
    id: Option<int>,
    userId: Option<int>,
    movieId: Option<int>,
    watchedAt: Option<Timestamp>,
    createAt: Option<Timestamp>,
    updateAt: Option<Timestamp>)
}
