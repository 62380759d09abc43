# Cinema catalogue: a verified model of its service core

The cinema catalogue is a Spring Boot CRUD application. It keeps movies,
genres, countries, users and the records of which user watched which
movie. This project models its core in Dafny. The core has five parts:

- **The movie filter.** It turns up to five optional query parameters
  into an AND of SQL conditions. The two id-set parameters are written as
  a grouped `COUNT(DISTINCT …)` subquery, and the model proves that this
  is an "all of" subset test.
- **The five CRUD services.** Each is a transition over map-valued tables.
  It yields `Ok` or `NotFound`. Genre and country updates replace the row;
  user and movie updates merge the request's non-null fields into it.
- **The MapStruct mappers.** Field copies, a null-ignoring partial update,
  and id-only shells for relations.
- **Error shaping.** The two `Error` records: one with `@NonNull`
  factories, one with a checking constructor. Also the controller advice,
  which builds the 404 and 400 responses.
- **The Bean Validation constraints** on the request bodies. They are
  stated as lists of field errors and are not service preconditions: only
  the watched-movie controller asks for validation.

Modules follow the source packages:

- `Common` and `Text`: nullable values, outcomes, and Java string
  semantics (blankness, trimming, ASCII lower-casing, joining, integer
  rendering with its parsing inverse).
- `Repository`: the JPA repository as a map plus an identity counter, and
  `findAll` followed by a mapping step.
- `Entities` and `Dtos`: the records.
- `GenreMapper`, `CountryMapper`, `UserMapper`, `MovieMapper`,
  `WatchedMovieMapper`.
- `GenreService`, `CountryService`, `UserService`, `MovieService`,
  `WatchedMovieService`.
- `MovieFilter`.
- `Errors` (`errors/Error.java`), `ConfigError` (`config/Error.java`),
  `ErrorAdvice`.
- `RequestValidation`.

How some things are represented:

- The clock is a `now` parameter. An insert stamps both timestamps at
  once. An update is written when the service's transaction commits:
  the response is built from the entity before that flush, and the flush
  stamps the update time only if a column of the row changed.
  - A genre or country update saves a new entity built from the request,
    which has no update time. Saving it merges it into the stored row, so
    the flush always finds a change: the response has no update time, and
    the row is stamped.
  - A user or movie update changes the stored entity itself. The response
    carries its previous update time. The row is stamped only if a scalar
    field changed. A movie has no version column, so a change to its
    genres or countries alone leaves its update time as it was.
- The database's `findAll` order is an `order` parameter that must list
  every key exactly once.
- A movie's genres and countries are its rows of the `movie_genres` and
  `movie_countries` join tables: sets of ids. A response loads the linked
  genre and country rows as the tables hold them at that moment, so a
  renamed genre shows its new name in every movie linked to it.
- The inverse sides of relations (a genre's movies, a user's watched
  movies) are sets of ids.

Where the two families of request bodies disagree (`models` and `dtos`),
both are modelled. The services consume the `dtos` family.

Source paths below are relative to the repository root and start with
`src/main/java/com/github/k1mb1/cinema_java_spring/`, abbreviated `…/`
in the prose but written out in the table.

## Model

| member | source | states |
|---|---|---|
| Text.NatToString | src/main/java/com/github/k1mb1/cinema_java_spring/services/GenreService.java:36 | the decimal rendering of an id is a non-empty run of digits |
| Text.ParseNatToString | src/main/java/com/github/k1mb1/cinema_java_spring/services/GenreService.java:36 | parsing the decimal rendering of a natural number gives it back |
| Text.ParseIntToString | src/main/java/com/github/k1mb1/cinema_java_spring/services/GenreService.java:36 | parsing the rendering of any integer, negative ones included, gives it back |
| Text.MessageDeterminesId | src/main/java/com/github/k1mb1/cinema_java_spring/errors/ErrorMessages.java:4-7 | two not-found messages with the same prefix are equal exactly when their ids are |
| Text.CountAppend | src/main/java/com/github/k1mb1/cinema_java_spring/errors/ErrorControllerAdvice.java:32 | occurrences of a character in a concatenation add up |
| Repository.Repo.FindById | src/main/java/com/github/k1mb1/cinema_java_spring/services/MovieService.java:58-63 | findById finds a row exactly when its id is a key, and returns that row |
| Repository.Repo.DeleteById | src/main/java/com/github/k1mb1/cinema_java_spring/services/MovieService.java:93-98 | deleteById removes that key only, keeps every other row and keeps the table consistent |
| Repository.Repo.FindAllById | src/main/java/com/github/k1mb1/cinema_java_spring/services/MovieService.java:42-45 | findAllById returns exactly the stored rows whose keys are among the ids; absent ids contribute nothing |
| Repository.Repo.Insert | src/main/java/com/github/k1mb1/cinema_java_spring/services/MovieService.java:53 | save of a new row uses a key no row has, adds that key only and keeps every other row |
| Repository.DistinctCardinality | src/main/java/com/github/k1mb1/cinema_java_spring/services/MovieService.java:66-70 | a list with no repeated element is as long as the set of its elements |
| Repository.EnumerationLength | src/main/java/com/github/k1mb1/cinema_java_spring/services/MovieService.java:66-70 | a listing of every key, each once, has as many entries as the table has rows |
| Repository.FindAllMapped | src/main/java/com/github/k1mb1/cinema_java_spring/services/MovieService.java:66-70 | findAll then map: one response per row in the database's order, and every row is represented |
| GenreMapper.ToDto | src/main/java/com/github/k1mb1/cinema_java_spring/mappers/GenreMapper.java:13 | the response carries the genre's id, name and both timestamps |
| CountryMapper.ToDto | src/main/java/com/github/k1mb1/cinema_java_spring/mappers/CountryMapper.java:14 | the response carries the country's id, name and both timestamps |
| UserMapper.ToDto | src/main/java/com/github/k1mb1/cinema_java_spring/mappers/UserMapper.java:11 | the response carries the user's id, username and both timestamps |
| GenreMapper.ToEntity | src/main/java/com/github/k1mb1/cinema_java_spring/mappers/GenreMapper.java:15-19 | only the name comes from the request; id, timestamps unset, no movies |
| GenreMapper.PartialUpdate | src/main/java/com/github/k1mb1/cinema_java_spring/mappers/GenreMapper.java:21-26 | a null name leaves the genre unchanged, a non-null one sets it; id, timestamps and movies never change |
| GenreMapper.PartialUpdateIdempotent | src/main/java/com/github/k1mb1/cinema_java_spring/mappers/GenreMapper.java:21-26 | applying the same request twice is applying it once |
| GenreMapper.PartialUpdateAgreesWithToEntity | src/main/java/com/github/k1mb1/cinema_java_spring/mappers/GenreMapper.java:15-26 | for a non-null name, creation and update state the same name |
| CountryMapper.ToEntity | src/main/java/com/github/k1mb1/cinema_java_spring/mappers/CountryMapper.java:16-20 | only the name comes from the request; id, timestamps unset, no movies |
| CountryMapper.PartialUpdate | src/main/java/com/github/k1mb1/cinema_java_spring/mappers/CountryMapper.java:22-27 | a null name leaves the country unchanged, a non-null one sets it; id, timestamps and movies never change |
| CountryMapper.PartialUpdateIdempotent | src/main/java/com/github/k1mb1/cinema_java_spring/mappers/CountryMapper.java:22-27 | applying the same request twice is applying it once |
| CountryMapper.PartialUpdateAgreesWithToEntity | src/main/java/com/github/k1mb1/cinema_java_spring/mappers/CountryMapper.java:16-27 | for a non-null name, creation and update state the same name |
| UserMapper.ToEntity | src/main/java/com/github/k1mb1/cinema_java_spring/mappers/UserMapper.java:13-17 | only the username comes from the request; id, timestamps unset, no watched movies |
| UserMapper.PartialUpdate | src/main/java/com/github/k1mb1/cinema_java_spring/mappers/UserMapper.java:19-24 | a null username leaves the user entirely unchanged; a non-null one changes the username and nothing else |
| UserMapper.PartialUpdateIdempotent | src/main/java/com/github/k1mb1/cinema_java_spring/mappers/UserMapper.java:19-24 | applying the same request twice is applying it once |
| MovieMapper.ToDto | src/main/java/com/github/k1mb1/cinema_java_spring/mappers/MovieMapper.java:20 | scalars, id and timestamps copied; the genre and country responses are exactly the mapped current rows of the linked ids, in both directions, and a linked id without a row yields none |
| MovieMapper.ToEntity | src/main/java/com/github/k1mb1/cinema_java_spring/mappers/MovieMapper.java:22-28 | the eight scalar fields come from the request; id, timestamps and all three relations are unset or empty |
| MovieMapper.PartialUpdate | src/main/java/com/github/k1mb1/cinema_java_spring/mappers/MovieMapper.java:30-37 | each non-null scalar overwrites, each null one keeps the target's; id, timestamps and relations never change |
| MovieMapper.PartialUpdateIdempotent | src/main/java/com/github/k1mb1/cinema_java_spring/mappers/MovieMapper.java:30-37 | applying the same request twice is applying it once |
| MovieMapper.PartialUpdateOfEmptyRequest | src/main/java/com/github/k1mb1/cinema_java_spring/mappers/MovieMapper.java:30 | a request whose scalars are all null leaves the movie as it was |
| MovieMapper.PartialUpdateOfOwnEntity | src/main/java/com/github/k1mb1/cinema_java_spring/mappers/MovieMapper.java:22-37 | updating the entity built from a request with that request changes nothing |
| MovieMapper.MapIdToGenre | src/main/java/com/github/k1mb1/cinema_java_spring/mappers/MovieMapper.java:39-41 | a genre shell carries exactly the given id and no other data |
| MovieMapper.MapIdToCountry | src/main/java/com/github/k1mb1/cinema_java_spring/mappers/MovieMapper.java:43-45 | a country shell carries exactly the given id and no other data |
| WatchedMovieMapper.ToDto | src/main/java/com/github/k1mb1/cinema_java_spring/mappers/WatchedMovieMapper.java:16-18 | userId is user.id, movieId is movie.id; id and timestamps copied |
| WatchedMovieMapper.MapIdToUser | src/main/java/com/github/k1mb1/cinema_java_spring/mappers/WatchedMovieMapper.java:28-31 | a user shell carries exactly the given id |
| WatchedMovieMapper.MapIdToMovie | src/main/java/com/github/k1mb1/cinema_java_spring/mappers/WatchedMovieMapper.java:33-36 | a movie shell carries exactly the given id |
| WatchedMovieMapper.ToEntity | src/main/java/com/github/k1mb1/cinema_java_spring/mappers/WatchedMovieMapper.java:20-26 | the record points at the shells of the request's ids; id and all three timestamps unset |
| WatchedMovieMapper.RoundTripKeepsIds | src/main/java/com/github/k1mb1/cinema_java_spring/mappers/WatchedMovieMapper.java:16-21 | request to entity to response preserves the user and movie ids |
| GenreService.Save | src/main/java/com/github/k1mb1/cinema_java_spring/services/GenreService.java:28 | a new genre gets a fresh key and both stamps, and the saved entity is the stored row; a merged genre is returned as the flush finds it and written to its own row only, which gets a new update time exactly when a column differs from the stored one |
| GenreService.CreateGenre | src/main/java/com/github/k1mb1/cinema_java_spring/services/GenreService.java:26-30 | one new row under a fresh key, named by the request, no movies; every other row kept; the response is that row's |
| GenreService.GetGenreById | src/main/java/com/github/k1mb1/cinema_java_spring/services/GenreService.java:33-37 | NotFound exactly for an absent id, with "Genre not found with ID: <id>"; otherwise the stored genre's response |
| GenreService.GetAllGenres | src/main/java/com/github/k1mb1/cinema_java_spring/services/GenreService.java:40-44 | one response per stored genre, every genre represented |
| GenreService.UpdateGenre | src/main/java/com/github/k1mb1/cinema_java_spring/services/GenreService.java:46-56 | absent id: NotFound, table untouched; otherwise full replacement from the request keeping id, creation time and movies; no other row changes; the row is stamped now, and the response has no update time |
| GenreService.DeleteGenre | src/main/java/com/github/k1mb1/cinema_java_spring/services/GenreService.java:58-63 | absent id: NotFound, table untouched; otherwise exactly that row goes |
| GenreService.GetAfterCreate | src/main/java/com/github/k1mb1/cinema_java_spring/services/GenreService.java:26-37 | reading a created genre gives what creation returned |
| GenreService.GetAfterUpdate | src/main/java/com/github/k1mb1/cinema_java_spring/services/GenreService.java:33-56 | reading an updated genre gives what the update returned, with the update time now where the response had none |
| GenreService.DeleteTwice | src/main/java/com/github/k1mb1/cinema_java_spring/services/GenreService.java:58-63 | a second delete of the same id is NotFound, and so is reading it |
| GenreService.UpdateReplacesRatherThanMerges | src/main/java/com/github/k1mb1/cinema_java_spring/services/GenreService.java:50-53 | a null name in an update is stored as null, where the mapper's partial update would keep the old name |
| CountryService.Save | src/main/java/com/github/k1mb1/cinema_java_spring/services/CountryService.java:28 | a new country gets a fresh key and both stamps, and the saved entity is the stored row; a merged country is returned as the flush finds it and written to its own row only, which gets a new update time exactly when a column differs from the stored one |
| CountryService.CreateCountry | src/main/java/com/github/k1mb1/cinema_java_spring/services/CountryService.java:26-30 | one new row under a fresh key, named by the request; every other row kept |
| CountryService.GetCountryById | src/main/java/com/github/k1mb1/cinema_java_spring/services/CountryService.java:33-38 | NotFound exactly for an absent id, with "Country not found with ID: <id>" |
| CountryService.GetAllCountries | src/main/java/com/github/k1mb1/cinema_java_spring/services/CountryService.java:41-45 | one response per stored country, every country represented |
| CountryService.UpdateCountry | src/main/java/com/github/k1mb1/cinema_java_spring/services/CountryService.java:47-57 | absent id: NotFound, table untouched; otherwise full replacement keeping id, creation time and movies; no other row changes; the row is stamped now, and the response has no update time |
| CountryService.DeleteCountry | src/main/java/com/github/k1mb1/cinema_java_spring/services/CountryService.java:59-64 | absent id: NotFound, table untouched; otherwise exactly that row goes |
| CountryService.GetAfterCreate | src/main/java/com/github/k1mb1/cinema_java_spring/services/CountryService.java:26-38 | reading a created country gives what creation returned |
| CountryService.GetAfterUpdate | src/main/java/com/github/k1mb1/cinema_java_spring/services/CountryService.java:33-57 | reading an updated country gives what the update returned, with the update time now where the response had none |
| CountryService.DeleteTwice | src/main/java/com/github/k1mb1/cinema_java_spring/services/CountryService.java:59-64 | a second delete of the same id is NotFound |
| CountryService.UpdateReplacesRatherThanMerges | src/main/java/com/github/k1mb1/cinema_java_spring/services/CountryService.java:51-54 | a null name in an update is stored as null, unlike a merge |
| UserService.Save | src/main/java/com/github/k1mb1/cinema_java_spring/services/UserService.java:30 | a new user gets a fresh key and both stamps, and the saved entity is the stored row; a managed user is returned as the flush finds it and written to its own row only, which gets a new update time exactly when a column differs from the stored one |
| UserService.CreateUser | src/main/java/com/github/k1mb1/cinema_java_spring/services/UserService.java:28-32 | one new row under a fresh key carrying the request's username; every other row kept |
| UserService.GetUserById | src/main/java/com/github/k1mb1/cinema_java_spring/services/UserService.java:35-40 | NotFound exactly for an absent id, with "User not found with id: <id>" |
| UserService.GetAllUsers | src/main/java/com/github/k1mb1/cinema_java_spring/services/UserService.java:43-47 | one response per stored user, every user represented |
| UserService.UpdateUser | src/main/java/com/github/k1mb1/cinema_java_spring/services/UserService.java:49-56 | absent id: NotFound, table untouched; otherwise a non-null username replaces, a null one keeps; id, creation time and watched movies kept; the row is stamped now only if the username changed and is untouched otherwise; the response carries the previous update time |
| UserService.DeleteUser | src/main/java/com/github/k1mb1/cinema_java_spring/services/UserService.java:58-63 | absent id: NotFound, table untouched; otherwise exactly that row goes |
| UserService.GetAfterCreate | src/main/java/com/github/k1mb1/cinema_java_spring/services/UserService.java:28-40 | reading a created user gives what creation returned |
| UserService.GetAfterUpdate | src/main/java/com/github/k1mb1/cinema_java_spring/services/UserService.java:35-56 | reading an updated user gives what the update returned, stamped now if the username changed and otherwise exactly as read before the update |
| UserService.UpdateIdempotent | src/main/java/com/github/k1mb1/cinema_java_spring/services/UserService.java:49-56 | a second update with the same request changes nothing in the table, not even the update time |
| UserService.DeleteTwice | src/main/java/com/github/k1mb1/cinema_java_spring/services/UserService.java:58-63 | a second delete of the same id is NotFound, and so is reading it |
| MovieService.Save | src/main/java/com/github/k1mb1/cinema_java_spring/services/MovieService.java:53 | a new movie gets a fresh key and both stamps, and the saved entity is the stored row; a managed movie is returned as the flush finds it and written to its own row only, which gets a new update time exactly when a column of the movie row, not a join table, differs from the stored one |
| MovieService.LinkRelations | src/main/java/com/github/k1mb1/cinema_java_spring/services/MovieService.java:42-51 | the join tables become the ids of a non-null, non-empty id set that findAllById finds, and stay otherwise; nothing else changes |
| MovieService.LinkedGenreIds | src/main/java/com/github/k1mb1/cinema_java_spring/services/MovieService.java:42-45 | the genre entities findAllById returns carry exactly the ids of the set that are stored, which is what the join table receives |
| MovieService.LinkedCountryIds | src/main/java/com/github/k1mb1/cinema_java_spring/services/MovieService.java:48-51 | the countries found for an id set are exactly those of its ids that are stored |
| MovieService.CreateMovie | src/main/java/com/github/k1mb1/cinema_java_spring/services/MovieService.java:36-55 | one new row under a fresh key with the request's scalars; relations linked only for listed id sets, empty otherwise; every other row kept |
| MovieService.GetMovieById | src/main/java/com/github/k1mb1/cinema_java_spring/services/MovieService.java:58-63 | NotFound exactly for an absent id, with "Movie not found with id: <id>"; otherwise the movie's response with its genres and countries loaded from their current rows |
| MovieService.GetAllMovies | src/main/java/com/github/k1mb1/cinema_java_spring/services/MovieService.java:66-70 | one response per stored movie, every movie represented, each with its genres and countries loaded from their current rows |
| MovieService.UpdateMovie | src/main/java/com/github/k1mb1/cinema_java_spring/services/MovieService.java:72-91 | absent id: NotFound, table untouched; otherwise the partial update of the stored movie, relations replaced only for listed id sets; no other row changes; the row is stamped now only if a scalar field changed; the response carries the previous update time |
| MovieService.DeleteMovie | src/main/java/com/github/k1mb1/cinema_java_spring/services/MovieService.java:93-98 | absent id: NotFound, table untouched; otherwise exactly that row goes |
| MovieService.CreateLinksKnownIdsOnly | src/main/java/com/github/k1mb1/cinema_java_spring/services/MovieService.java:42-51 | a created movie's response nests the genre of every listed id that is stored and no other, and likewise the countries; unknown ids are dropped silently |
| MovieService.UpdatedGenreShowsInMovie | src/main/java/com/github/k1mb1/cinema_java_spring/entities/Movie.java:46-53 | after a linked genre is updated, the movie's response nests the response that update returned, stamped now |
| MovieService.UpdatedCountryShowsInMovie | src/main/java/com/github/k1mb1/cinema_java_spring/entities/Movie.java:55-62 | after a linked country is updated, the movie's response nests the response that update returned, stamped now |
| MovieService.DeletedGenreLeavesMovies | src/main/java/com/github/k1mb1/cinema_java_spring/entities/Movie.java:46-53 | after a genre is deleted, no movie's response nests it |
| MovieService.GetAfterUpdate | src/main/java/com/github/k1mb1/cinema_java_spring/services/MovieService.java:58-91 | reading an updated movie gives what the update returned, stamped now if a scalar field changed and otherwise exactly the response |
| MovieService.GetAfterCreate | src/main/java/com/github/k1mb1/cinema_java_spring/services/MovieService.java:36-63 | reading a created movie gives what creation returned |
| MovieService.DeleteTwice | src/main/java/com/github/k1mb1/cinema_java_spring/services/MovieService.java:93-98 | a second delete of the same id is NotFound, and so is reading it |
| WatchedMovieService.Insert | src/main/java/com/github/k1mb1/cinema_java_spring/services/WatchedMovieService.java:38 | a new record gets a fresh key and its watch, creation and update times; every other row kept |
| WatchedMovieService.MarkMovieAsWatched | src/main/java/com/github/k1mb1/cinema_java_spring/services/WatchedMovieService.java:30-41 | unknown user reported first, then unknown movie, both saving nothing; otherwise exactly one new record naming the request's user and movie |
| WatchedMovieService.GetWatchedMovieById | src/main/java/com/github/k1mb1/cinema_java_spring/services/WatchedMovieService.java:44-49 | NotFound exactly for an absent id, with "Watched movie record not found with ID: <id>" |
| WatchedMovieService.GetAllWatchedMovies | src/main/java/com/github/k1mb1/cinema_java_spring/services/WatchedMovieService.java:52-56 | one response per stored record, every record represented |
| WatchedMovieService.DeleteWatchedMovie | src/main/java/com/github/k1mb1/cinema_java_spring/services/WatchedMovieService.java:58-63 | absent id: NotFound, table untouched; otherwise exactly that row goes |
| WatchedMovieService.DuplicatePairsAreKept | src/main/java/com/github/k1mb1/cinema_java_spring/services/WatchedMovieService.java:37-40 | recording the same pair twice leaves two distinct records for it: there is no duplicate check |
| WatchedMovieService.GetAfterMark | src/main/java/com/github/k1mb1/cinema_java_spring/services/WatchedMovieService.java:30-49 | reading a new record gives what recording returned |
| WatchedMovieService.DeleteTwice | src/main/java/com/github/k1mb1/cinema_java_spring/services/WatchedMovieService.java:58-63 | a second delete of the same id is NotFound |
| MovieFilter.Present | src/main/java/com/github/k1mb1/cinema_java_spring/models/movie/MovieFilter.java:21-28 | the AND keeps every non-null sub-specification and nothing else |
| MovieFilter.Select | src/main/java/com/github/k1mb1/cinema_java_spring/models/movie/MovieFilter.java:21-28 | the result is drawn from the input and holds exactly the rows that pass |
| MovieFilter.SubsetOfSameSize | src/main/java/com/github/k1mb1/cinema_java_spring/models/movie/MovieFilter.java:63 | a subset as large as its superset is that superset |
| MovieFilter.CountMatchesIsSubset | src/main/java/com/github/k1mb1/cinema_java_spring/models/movie/MovieFilter.java:54-65 | for a non-empty id set, the count-distinct subquery holds exactly when the movie has every requested id |
| MovieFilter.LikeLiteralPrefix | src/main/java/com/github/k1mb1/cinema_java_spring/models/movie/MovieFilter.java:44 | a wildcard-free literal followed by '%' matches exactly the strings it begins |
| MovieFilter.LikeLeadingPercent | src/main/java/com/github/k1mb1/cinema_java_spring/models/movie/MovieFilter.java:44 | a leading '%' matches exactly when the rest matches some suffix |
| MovieFilter.LikeIsContains | src/main/java/com/github/k1mb1/cinema_java_spring/models/movie/MovieFilter.java:44 | with no `%`, `_` or `\` in the parameter, the LIKE pattern is a substring test, whether or not the database takes `\` as the default escape character |
| MovieFilter.MatchesEachSpec | src/main/java/com/github/k1mb1/cinema_java_spring/models/movie/MovieFilter.java:21-28 | a movie passes exactly when it passes each non-null sub-specification |
| MovieFilter.MatchesIffIntended | src/main/java/com/github/k1mb1/cinema_java_spring/models/movie/MovieFilter.java:21-88 | with a title parameter free of `%`, `_` and `\`, the filter selects exactly the movies within the date bounds, whose lower-cased title contains the lower-cased parameter, and which have every requested genre and country |
| MovieFilter.UnconstrainedFilterMatchesAll | src/main/java/com/github/k1mb1/cinema_java_spring/models/movie/MovieFilter.java:21-28 | with every parameter null, empty or blank there is no condition and every movie passes |
| MovieFilter.MissingIdExcludes | src/main/java/com/github/k1mb1/cinema_java_spring/models/movie/MovieFilter.java:48-88 | a requested genre or country the movie lacks excludes it |
| MovieFilter.MoreGenresNarrow | src/main/java/com/github/k1mb1/cinema_java_spring/models/movie/MovieFilter.java:48-67 | requesting more genres never lets more movies through |
| MovieFilter.MoreGenresSelectFewer | src/main/java/com/github/k1mb1/cinema_java_spring/models/movie/MovieFilter.java:48-67 | the selection for a larger genre set lies within the selection for a smaller one |
| MovieFilter.UnderscoreMatchesAnyTitle | src/main/java/com/github/k1mb1/cinema_java_spring/models/movie/MovieFilter.java:43-45 | as written, a title parameter "_" selects a movie titled "ab", which does not contain it |
| MovieFilter.BackslashReadsTwoWays | src/main/java/com/github/k1mb1/cinema_java_spring/models/movie/MovieFilter.java:44 | the pattern of a title parameter holding `\` matches differently with and without `\` as escape character, so the title test depends on the database there |
| MovieFilter.LikeEscapedLiteralPrefix | src/main/java/com/github/k1mb1/cinema_java_spring/models/movie/MovieFilter.java:44 | an escaped literal followed by '%' matches exactly the strings the literal begins, whatever it holds |
| MovieFilter.LikeEscapedLeadingPercent | src/main/java/com/github/k1mb1/cinema_java_spring/models/movie/MovieFilter.java:44 | with escaping too, a leading '%' matches exactly when the rest matches some suffix |
| MovieFilter.LikeEscapedIsContains | src/main/java/com/github/k1mb1/cinema_java_spring/models/movie/MovieFilter.java:44 | the escaped pattern is the substring test for every parameter |
| MovieFilter.CorrectedMatchesEachSpec | src/main/java/com/github/k1mb1/cinema_java_spring/models/movie/MovieFilter.java:21-28 | a movie passes the corrected filter exactly when it passes each non-null sub-specification |
| MovieFilter.CorrectedMatchesIffIntended | src/main/java/com/github/k1mb1/cinema_java_spring/models/movie/MovieFilter.java:21-88 | with the title parameter escaped, the filter selects exactly the intended movies, for every parameter |
| MovieFilter.CorrectionAgreesWithoutWildcards | src/main/java/com/github/k1mb1/cinema_java_spring/models/movie/MovieFilter.java:43-45 | for a title parameter without wildcards, the corrected and the written filter select the same movies |
| Errors.HttpStatus.Value | src/main/java/com/github/k1mb1/cinema_java_spring/errors/Error.java:16 | a status's code lies in 200..599; 2xx exactly for the success statuses, 4xx exactly for the client errors |
| Errors.Resolve | src/main/java/com/github/k1mb1/cinema_java_spring/errors/Error.java:16 | a resolved status has the code asked for |
| Errors.ResolveValue | src/main/java/com/github/k1mb1/cinema_java_spring/errors/Error.java:16 | a status is recovered from its code |
| Errors.Of | src/main/java/com/github/k1mb1/cinema_java_spring/errors/Error.java:15-17 | a null message, then a null status, raises a NullPointerException naming it; otherwise code is the status's, message and status pass through, no details |
| Errors.OfDetailed | src/main/java/com/github/k1mb1/cinema_java_spring/errors/Error.java:19-21 | as above, with a null details reported last and non-null details kept |
| Errors.OfDetailedExtendsOf | src/main/java/com/github/k1mb1/cinema_java_spring/errors/Error.java:15-21 | the detailed factory returns where the plain one does, with the same body but for the details, and otherwise throws the same |
| Errors.OfCodeResolvesToStatus | src/main/java/com/github/k1mb1/cinema_java_spring/errors/Error.java:16 | a body's code resolves back to its status |
| ConfigError.New | src/main/java/com/github/k1mb1/cinema_java_spring/config/Error.java:14-25 | a null or blank message is refused first, then a null status; a null timestamp becomes now; code is the status's whatever was passed |
| ConfigError.Of | src/main/java/com/github/k1mb1/cinema_java_spring/config/Error.java:27-29 | returns exactly for a non-blank message and a status; code is the status's despite the 0 passed; no details |
| ConfigError.OfDetailed | src/main/java/com/github/k1mb1/cinema_java_spring/config/Error.java:31-33 | as above, with the details kept, null included |
| ConfigError.CodeArgumentIgnored | src/main/java/com/github/k1mb1/cinema_java_spring/config/Error.java:24 | constructions differing only in the code argument build the same record |
| ConfigError.MessageCheckedFirst | src/main/java/com/github/k1mb1/cinema_java_spring/config/Error.java:15-20 | with a blank message and a null status, the message error is the one reported |
| ConfigError.AgreesWithUncheckedError | src/main/java/com/github/k1mb1/cinema_java_spring/config/Error.java:27-33 | where the checking record returns, it builds the unchecked record's body; a blank message is refused by one and accepted by the other |
| ErrorAdvice.Render | src/main/java/com/github/k1mb1/cinema_java_spring/errors/ErrorControllerAdvice.java:31 | a field error renders as "field: message", a null message as "null" |
| ErrorAdvice.HandleNotFound | src/main/java/com/github/k1mb1/cinema_java_spring/errors/ErrorControllerAdvice.java:19-24 | status NOT_FOUND, code 404, the exception's message unchanged, no details |
| ErrorAdvice.HandleValidation | src/main/java/com/github/k1mb1/cinema_java_spring/errors/ErrorControllerAdvice.java:26-36 | status BAD_REQUEST, code 400, the joined field errors as message, the exception's message as details |
| ErrorAdvice.JoinContainsParts | src/main/java/com/github/k1mb1/cinema_java_spring/errors/ErrorControllerAdvice.java:32 | every part occurs in the joined string |
| ErrorAdvice.JoinLength | src/main/java/com/github/k1mb1/cinema_java_spring/errors/ErrorControllerAdvice.java:32 | the joined string is the parts plus one separator between each two |
| ErrorAdvice.JoinCount | src/main/java/com/github/k1mb1/cinema_java_spring/errors/ErrorControllerAdvice.java:32 | a character occurs in the joined string as often as in the parts plus once per separator occurrence |
| ErrorAdvice.ValidationMessageListsEveryError | src/main/java/com/github/k1mb1/cinema_java_spring/errors/ErrorControllerAdvice.java:28-35 | every field error occurs in the 400 message |
| ErrorAdvice.ValidationMessageCommas | src/main/java/com/github/k1mb1/cinema_java_spring/errors/ErrorControllerAdvice.java:32 | with no comma in the rendered field errors, n errors give exactly n-1 commas in the 400 message: one per ", " separator |
| ErrorAdvice.SingleErrorMessage | src/main/java/com/github/k1mb1/cinema_java_spring/errors/ErrorControllerAdvice.java:28-32 | a single field error is the whole message, with no separator |
| ErrorAdvice.NotFoundBodyDeterminesId | src/main/java/com/github/k1mb1/cinema_java_spring/errors/ErrorControllerAdvice.java:19-24 | for the user and movie services, whose exception this handler catches, the 404 bodies of one service are equal exactly when the ids are |
| RequestValidation.UserRequestErrors | src/main/java/com/github/k1mb1/cinema_java_spring/models/user/UserRequestDto.java:17-20 | every error names the username; a null username gives exactly the not-blank error |
| RequestValidation.UsernameConstraintsIff | src/main/java/com/github/k1mb1/cinema_java_spring/models/user/UserRequestDto.java:17-19 | a username is valid exactly when present, 3 to 50 characters and all from [a-zA-Z0-9_.-]; not-blank adds nothing |
| RequestValidation.ValidUsernameIsStoredWithText | src/main/java/com/github/k1mb1/cinema_java_spring/models/user/UserRequestDto.java:17-19 | if a request passed the `models` username constraints, a user created from it would be stored with a username that has text; nothing validates the body the service consumes |
| RequestValidation.ShortUsernameReported | src/main/java/com/github/k1mb1/cinema_java_spring/models/user/UserRequestDto.java:18 | a username of the wrong length is reported, and the 400 message carries "username: size must be between 3 and 50" |
| RequestValidation.StrictGenreRequestErrors | src/main/java/com/github/k1mb1/cinema_java_spring/models/genre/GenreRequestDto.java:16-18 | valid exactly when the name is not blank and 2 to 50 characters long |
| RequestValidation.GenreRequestErrors | src/main/java/com/github/k1mb1/cinema_java_spring/dtos/genre/GenreRequestDto.java:15-16 | valid exactly when the name is not blank; otherwise the one custom message |
| RequestValidation.StrictCountryRequestErrors | src/main/java/com/github/k1mb1/cinema_java_spring/models/country/CountryRequestDto.java:16-18 | valid exactly when the name is not blank and 2 to 100 characters long |
| RequestValidation.CountryRequestErrors | src/main/java/com/github/k1mb1/cinema_java_spring/dtos/country/CountryRequestDto.java:15-16 | valid exactly when the name is not blank; otherwise the one custom message |
| RequestValidation.StrictNameConstraintsAreStronger | src/main/java/com/github/k1mb1/cinema_java_spring/models/genre/GenreRequestDto.java:16-17 | a name the strict constraints accept the lenient one accepts, and a one-letter name separates them |
| RequestValidation.MovieRequestErrors | src/main/java/com/github/k1mb1/cinema_java_spring/dtos/movie/MovieRequestDto.java:20-37 | valid exactly when the title is not blank and year and duration are positive or null; id sets unconstrained |
| RequestValidation.StrictMovieRequestErrors | src/main/java/com/github/k1mb1/cinema_java_spring/models/movie/MovieRequestDto.java:19-49 | valid exactly when title not blank and at most 255, year and duration present and not negative, gross and budget not negative, both id sets non-empty without null |
| RequestValidation.Relax | src/main/java/com/github/k1mb1/cinema_java_spring/models/movie/MovieRequestDto.java:19-49 | the service request a strict movie request amounts to: same scalars, the non-null ids |
| RequestValidation.StrictMovieRequestVersusDtos | src/main/java/com/github/k1mb1/cinema_java_spring/dtos/movie/MovieRequestDto.java:25-37 | a valid strict request is a valid service request exactly when year and duration are not 0, and its id sets are listed |
| RequestValidation.WatchedMovieRequestErrors | src/main/java/com/github/k1mb1/cinema_java_spring/models/watchedmovie/WatchedMovieRequestDto.java:15-19 | valid exactly when both ids are present; one "must not be null" error per missing id |
| RequestValidation.Admit | src/main/java/com/github/k1mb1/cinema_java_spring/controllers/WatchedMovieController.java:27 | a request is refused with its field errors, or reaches the service with both its ids |

## Left out

- Controllers: routing and the fixed success status per verb (201, 200,
  204) carry no logic. Only the `@Valid` of the watched-movie controller is
  kept, as `RequestValidation.Admit`.
- JPA and Hibernate: a table is a map plus an identity counter. Lazy
  loading, rollback and the persistence context are not modelled. Of the
  flush, only its effect on the update time is: the commit writes the
  updated row and stamps it when its columns changed.
- The clock: `now` is a parameter, and `LocalDateTime` is an opaque integer.
- The database's `findAll` order is a parameter. The model does not say
  which order the database picks.
- Logging (`log.error`) and the `System.out.println` calls in the movie
  service have no effect on results.
- Database uniqueness constraints on title, username and genre name are
  enforced by the schema, not by the code, and are not modelled.
- The commented-out optimistic-lock field is inactive code.
- MovieFilter is not referenced by any service or controller in the
  repository. It is modelled on its own, over an in-memory movie row.
- MovieFilter.MatchesIffIntended: requires a title parameter without `%`,
  `_` or `\`. The first two are passed to LIKE unescaped (see Findings).
  The pattern declares no escape character, and whether `\` then escapes
  depends on the database (PostgreSQL, H2 and MySQL say it does), which is
  not part of this model (`MovieFilter.BackslashReadsTwoWays`). For a
  parameter holding `\`, no claim about the filter as written is made;
  `MovieFilter.CorrectedMatchesIffIntended` covers every parameter.
- MovieFilter.LikeIsContains: holds only for parameters without `%`, `_`
  or `\`, for the same reason.
- MovieFilter.Like: LIKE without any escape character, the reading of
  databases with no default escape. `MovieFilter.LikeEscaped` (with `\`
  as escape) is used by the corrected filter.
- Lower-casing is ASCII only. Java's `toLowerCase()` depends on the locale
  and the database's `lower()` on the collation.
- Null elements inside the service's id sets are not modelled. The `dtos`
  movie request's sets hold plain ids. The `models` request's null
  elements are modelled only by `RequestValidation`.
- MovieFilter.Filter, MovieFilter.MatchesIffIntended: the two id-set
  parameters hold plain ids, so a set holding null cannot be stated. In the
  source, a null element never matches `id IN (…)` yet counts in the set's
  `size()`, so a non-empty set holding null lets no movie through. The
  model makes no claim about such a set.
- GenreService.CreateGenre, GenreService.GetGenreById,
  GenreService.UpdateGenre, GenreService.DeleteGenre,
  CountryService.CreateCountry, CountryService.GetCountryById,
  CountryService.UpdateCountry, CountryService.DeleteCountry,
  UserService.CreateUser, UserService.GetUserById, UserService.UpdateUser,
  UserService.DeleteUser, MovieService.CreateMovie,
  MovieService.GetMovieById, MovieService.UpdateMovie,
  MovieService.DeleteMovie, WatchedMovieService.MarkMovieAsWatched,
  WatchedMovieService.GetWatchedMovieById,
  WatchedMovieService.DeleteWatchedMovie, MovieMapper.MapIdToGenre,
  MovieMapper.MapIdToCountry, WatchedMovieMapper.MapIdToUser,
  WatchedMovieMapper.MapIdToMovie: every parameter is Lombok `@NonNull`,
  so a null id or request body raises a `NullPointerException` whose
  message names the parameter ("id is marked non-null but is null"), and
  nothing else happens. The controllers always pass a bound path variable
  and a required request body, so the model types these parameters
  non-null and leaves that guard out. The same guard is modelled where a
  caller can reach it with null: `Errors.Of` and `Errors.OfDetailed`.
- Integer widths: ids, years and money are unbounded integers. `Integer`
  and `Long` overflow cannot occur in the code paths modelled, which only
  copy and compare.
- Text lengths are counted in code points, whereas Bean Validation's
  `@Size` counts UTF-16 code units. They differ only for characters outside
  the Basic Multilingual Plane.
- The order in which the validator reports field errors is unspecified. The
  model lists them in declaration order, so only the set of errors, not
  their order, is a claim about the source.
- The default messages of the built-in constraints are those of Hibernate
  Validator's English resource bundle.
- `…/dtos/user/UserRequestDto.java` and the `dtos` response classes are not
  part of this model. They are taken to have the fields their mappers
  copy.
- WatchedMovieRequest ids are not nullable in the service model, because
  the controller validates them first (`RequestValidation.Admit`).
- Two `NotFoundException` classes are in use. Both are one `NotFound`
  outcome of the services here. The genre and country services raise the
  one in `…/config/`, which `ErrorControllerAdvice` does not catch; the
  handler that turns it into a response is not part of this model, so the
  404 body of a genre or country not found is not modelled.
- Errors.HttpStatus: only the six statuses the application answers with
  are modelled. `Error.of` and the checking constructor accept any Spring
  `HttpStatus`; the claims about codes are about these six.
- GenreService.DeleteGenre, CountryService.DeleteCountry: the join-table
  foreign keys are declared by the database schema, which is not part of
  this model. The model lets the delete of a linked genre or country
  succeed; the movies linked to it then simply stop showing it
  (`MovieService.DeletedGenreLeavesMovies`). A database with those foreign
  keys refuses the delete with a constraint violation instead.
- UserService.DeleteUser, MovieService.DeleteMovie: likewise, the
  `watched_movies` foreign keys are not modelled. Deleting a user or a
  movie that has watched records succeeds here and leaves those records
  pointing at the missing id, where such a database refuses the delete.
- The inverse sides of relations are held as id sets. The model never
  rewrites them: saving a movie does not touch any genre row.

## Findings

| source | as written | input that shows it | evidently intended | confidence | as-written member | corrected member |
|---|---|---|---|---|---|---|
| src/main/java/com/github/k1mb1/cinema_java_spring/models/movie/MovieFilter.java:43-45 | the title parameter goes into the LIKE pattern unescaped, so its `%` and `_` act as wildcards | title parameter `_` and a movie titled `ab`: the movie is selected, though its title contains no `_` | a movie is selected when its lower-cased title contains the lower-cased parameter as typed | medium; not executed | MovieFilter.UnderscoreMatchesAnyTitle | MovieFilter.CorrectedMatchesIffIntended |

The corrected filter escapes `%`, `_` and the escape character `\` in
the parameter and declares `\` as LIKE's escape character. It agrees with
the filter as written whenever the parameter holds no wildcard
(`MovieFilter.CorrectionAgreesWithoutWildcards`). Nothing else in the
model depends on the filter, so the correction does not change anything
else.
