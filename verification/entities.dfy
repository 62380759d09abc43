/** The persistent entities of the catalogue (the `entities` package), as
    immutable records. Every Java field may be null, so each is an Option,
    except the collections, which the builders default to empty sets.

    A movie's genres and countries are what its rows of the movie_genres
    and movie_countries join tables hold: the ids of the linked rows. Reading
    them loads the genre and country rows as they are at that moment, so a
    renamed genre shows its new name in every movie linked to it. A watched
    movie refers to its user and movie through id-only records, as its two
    foreign keys do. An inverse side (Genre.movies, Country.movies,
    User.watchedMovies, Movie.watchedMovies) is kept as the set of ids it
    refers to. */
module Entities {
  import opened Common

  datatype Genre = Genre(
    id: Option<int>,
    name: Option<string>,
    movies: set<int>,
    createAt: Option<Timestamp>,
    updateAt: Option<Timestamp>)

  datatype Country = Country(
    id: Option<int>,
    name: Option<string>,
    movies: set<int>,
    createAt: Option<Timestamp>,
    updateAt: Option<Timestamp>)

  datatype User = User(
    id: Option<int>,
    username: Option<string>,
    watchedMovies: set<int>,
    createAt: Option<Timestamp>,
    updateAt: Option<Timestamp>)

  datatype Movie = Movie(
    id: Option<int>,
    title: Option<string>,
    description: Option<string>,
    year: Option<int>,
    releaseDate: Option<Date>,
    worldGross: Option<int>,
    budget: Option<int>,
    ageRating: Option<string>,
    durationMinutes: Option<int>,
    genres: set<int>,
    countries: set<int>,
    watchedMovies: set<int>,
    createAt: Option<Timestamp>,
    updateAt: Option<Timestamp>)

  datatype WatchedMovie = WatchedMovie(
    id: Option<int>,
    user: User,
    movie: Movie,
    watchedAt: Option<Timestamp>,
    createAt: Option<Timestamp>,
    updateAt: Option<Timestamp>)
}
