/** MovieService: create, read, list, update and delete movies over the movie
    table, resolving the request's genre and country ids against the genre
    and country tables. An update merges the request's non-null scalar
    fields into the stored movie; genres and countries are replaced only
    when the request lists at least one id for them. */
module MovieService {
  import opened Common
  import opened Text
  import opened Entities
  import opened Dtos
  import opened Repository
  import MovieMapper
  import GenreMapper
  import CountryMapper
  import GenreService
  import CountryService

  /** The movie table is consistent: every row carries its own key as id,
      and an update time, which the insert stamped and only a later stamp
      replaces. */
  ghost predicate Stored(repo: Repo<Movie>)
  {
    && repo.Valid()
    && forall k | k in repo.rows :: repo.rows[k].id == Some(k) && repo.rows[k].updateAt.Some?
  }

  /** Two movies agree on every column of the movie row: all but the
      collections genres, countries and watchedMovies, which live in other
      tables. This is what Hibernate's dirty check compares at the flush;
      the movie has no version column, so a change to its join tables alone
      does not make it dirty. */
  predicate SameColumns(a: Movie, b: Movie)
  {
    a.(genres := b.genres, countries := b.countries, watchedMovies := b.watchedMovies) == b
  }

  /** MOVIE_NOT_FOUND, "Movie not found with id: %s", formatted with the id. */
  function NotFoundMessage(id: int): string
  {
    "Movie not found with id: " + IntToString(id)
  }

  /** An id set that is neither null nor empty: only such a set makes the
      service look up and set the movie's genres or countries. */
  predicate Listed(ids: Option<set<int>>)
  {
    ids.Some? && ids.value != {}
  }

  /** save, and the flush at the commit of the service's transaction. A
      movie without id is inserted at once: it gets the next key and both
      timestamps, and the saved entity carries them. A movie with an id is
      the managed entity itself: the saved entity is the movie as the flush
      finds it, and the flush writes it to its row, stamping a new update
      time exactly when a column differs from the stored row. */
  function Save(repo: Repo<Movie>, m: Movie, now: Timestamp): (r: (Repo<Movie>, Movie))
    requires Stored(repo)
    requires m.id.Some? ==> m.id.value in repo.rows
    ensures Stored(r.0)
    ensures m.id.None? ==>
      && r.1.id == Some(repo.nextId) && r.1.createAt == Some(now) && r.1.updateAt == Some(now)
      && r.1.(id := m.id, createAt := m.createAt, updateAt := m.updateAt) == m
      && r.0.rows.Keys == repo.rows.Keys + {repo.nextId}
      && r.0.rows[repo.nextId] == r.1
    ensures m.id.Some? ==>
      var k := m.id.value;
      && r.1 == m
      && r.0.rows.Keys == repo.rows.Keys
      && r.0.rows[k].(updateAt := m.updateAt) == m
      && (SameColumns(m, repo.rows[k]) ==> r.0.rows[k].updateAt == repo.rows[k].updateAt)
      && (!SameColumns(m, repo.rows[k]) ==> r.0.rows[k].updateAt == Some(now))
    ensures forall k | k in repo.rows && Some(k) != r.1.id :: r.0.rows[k] == repo.rows[k]
  {
    match m.id
    case None =>
      var saved := m.(id := Some(repo.nextId), createAt := Some(now), updateAt := Some(now));
      (repo.Insert(saved), saved)
    case Some(k) =>
      var flushed := if SameColumns(m, repo.rows[k]) then m else m.(updateAt := Some(now));
      (repo.Replace(k, flushed), m)
  }

  /** Sets the genres to those of a listed id set that findAllById finds in
      the genre table, and the countries likewise: the join table then holds
      the keys of the rows found. An unlisted set leaves the movie's own. */
  function LinkRelations(m: Movie, req: MovieRequest, genres: Repo<Genre>, countries: Repo<Country>): (r: Movie)
    ensures r.(genres := m.genres, countries := m.countries) == m
    ensures Listed(req.genreIds) ==> r.genres == req.genreIds.value * genres.rows.Keys
    ensures !Listed(req.genreIds) ==> r.genres == m.genres
    ensures Listed(req.countryIds) ==> r.countries == req.countryIds.value * countries.rows.Keys
    ensures !Listed(req.countryIds) ==> r.countries == m.countries
  {
    var withGenres := if Listed(req.genreIds) then m.(genres := set k | k in req.genreIds.value && genres.ExistsById(k)) else m;
    if Listed(req.countryIds) then withGenres.(countries := set k | k in req.countryIds.value && countries.ExistsById(k))
    else withGenres
  }

  /** The genre entities findAllById returns for a set of ids carry exactly
      the ids of that set that have a row: those are the ids written to the
      join table. */
  lemma LinkedGenreIds(genres: Repo<Genre>, ids: set<int>)
    requires GenreService.Stored(genres)
    ensures (set g | g in genres.FindAllById(ids) && g.id.Some? :: g.id.value) == ids * genres.rows.Keys
  {
    var found := genres.FindAllById(ids);
    var linked := set g | g in found && g.id.Some? :: g.id.value;
    forall k | k in ids * genres.rows.Keys
      ensures k in linked
    {
      assert genres.rows[k] in found;
    }
  }

  /** The country entities findAllById returns carry exactly the ids of the
      set that have a row. */
  lemma LinkedCountryIds(countries: Repo<Country>, ids: set<int>)
    requires CountryService.Stored(countries)
    ensures (set c | c in countries.FindAllById(ids) && c.id.Some? :: c.id.value) == ids * countries.rows.Keys
  {
    var found := countries.FindAllById(ids);
    var linked := set c | c in found && c.id.Some? :: c.id.value;
    forall k | k in ids * countries.rows.Keys
      ensures k in linked
    {
      assert countries.rows[k] in found;
    }
  }

  /** createMovie: one new row, under a key no row had, whose scalar fields
      are the request's; it is linked to the stored genres among a listed
      genre id set (to none otherwise), and to countries likewise. Every
      existing row is kept. The response shows the linked genres and
      countries as their tables hold them. */
  function CreateMovie(repo: Repo<Movie>, genres: Repo<Genre>, countries: Repo<Country>, req: MovieRequest, now: Timestamp)
    : (r: Effect<Repo<Movie>, MovieDto>)
    requires Stored(repo)
    ensures Stored(r.after)
    ensures repo.nextId !in repo.rows
    ensures r.after.rows.Keys == repo.rows.Keys + {repo.nextId}
    ensures forall k | k in repo.rows :: r.after.rows[k] == repo.rows[k]
    ensures r.after.rows[repo.nextId].(genres := {}, countries := {}, id := None, createAt := None, updateAt := None)
         == MovieMapper.ToEntity(req)
    ensures Listed(req.genreIds) ==> r.after.rows[repo.nextId].genres == req.genreIds.value * genres.rows.Keys
    ensures !Listed(req.genreIds) ==> r.after.rows[repo.nextId].genres == {}
    ensures Listed(req.countryIds) ==> r.after.rows[repo.nextId].countries == req.countryIds.value * countries.rows.Keys
    ensures !Listed(req.countryIds) ==> r.after.rows[repo.nextId].countries == {}
    ensures r.outcome == Ok(MovieMapper.ToDto(r.after.rows[repo.nextId], genres, countries))
    ensures r.outcome.value.id == Some(repo.nextId)
  {
    var movie := LinkRelations(MovieMapper.ToEntity(req), req, genres, countries);
    var (after, saved) := Save(repo, movie, now);
    Effect(after, Ok(MovieMapper.ToDto(saved, genres, countries)))
  }

  /** getMovieById: the stored movie's response, with its genres and
      countries loaded from their tables, or NotFound naming the id. */
  function GetMovieById(repo: Repo<Movie>, genres: Repo<Genre>, countries: Repo<Country>, id: int): (r: Outcome<MovieDto>)
    ensures r.NotFound? <==> id !in repo.rows
    ensures r.NotFound? ==> r.message == "Movie not found with id: " + IntToString(id)
    ensures r.Ok? ==> r.value == MovieMapper.ToDto(repo.rows[id], genres, countries)
    ensures r.Ok? && Stored(repo) ==> r.value.id == Some(id)
  {
    match repo.FindById(id)
    case None => NotFound(NotFoundMessage(id))
    case Some(m) => Ok(MovieMapper.ToDto(m, genres, countries))
  }

  /** getAllMovies: one response per stored movie, in the database's order,
      each with its genres and countries loaded from their tables. */
  method GetAllMovies(repo: Repo<Movie>, genres: Repo<Genre>, countries: Repo<Country>, order: seq<int>) returns (r: seq<MovieDto>)
    requires IsEnumeration(order, repo.rows.Keys)
    ensures |r| == |order| == |repo.rows|
    ensures forall i | 0 <= i < |r| :: r[i] == MovieMapper.ToDto(repo.rows[order[i]], genres, countries)
    ensures forall k | k in repo.rows :: exists i | 0 <= i < |r| :: r[i] == MovieMapper.ToDto(repo.rows[k], genres, countries)
  {
    r := FindAllMapped(repo, order, m => MovieMapper.ToDto(m, genres, countries));
  }

  /** updateMovie: on an absent id, NotFound and the table untouched.
      Otherwise, apart from genres, countries and update time, the stored
      movie becomes the request merged into it; genres become the stored
      genres among a listed genre id set and stay as they were otherwise,
      countries likewise; no other row changes. The row gets a new update
      time only when one of its scalar fields changed, and the response
      shows the movie before that stamp. */
  function UpdateMovie(repo: Repo<Movie>, genres: Repo<Genre>, countries: Repo<Country>, id: int, req: MovieRequest, now: Timestamp)
    : (r: Effect<Repo<Movie>, MovieDto>)
    requires Stored(repo)
    ensures Stored(r.after)
    ensures id !in repo.rows ==> r == Effect(repo, NotFound("Movie not found with id: " + IntToString(id)))
    ensures id in repo.rows ==> r.after.rows.Keys == repo.rows.Keys
    ensures id in repo.rows ==>
      var before := repo.rows[id];
      var after := r.after.rows[id];
      && (forall k | k in repo.rows && k != id :: r.after.rows[k] == repo.rows[k])
      && after.id == Some(id)
      && after.(genres := before.genres, countries := before.countries, updateAt := before.updateAt) == MovieMapper.PartialUpdate(req, before)
      && (Listed(req.genreIds) ==> after.genres == req.genreIds.value * genres.rows.Keys)
      && (!Listed(req.genreIds) ==> after.genres == before.genres)
      && (Listed(req.countryIds) ==> after.countries == req.countryIds.value * countries.rows.Keys)
      && (!Listed(req.countryIds) ==> after.countries == before.countries)
      && (MovieMapper.PartialUpdate(req, before) == before ==> after.updateAt == before.updateAt)
      && (MovieMapper.PartialUpdate(req, before) != before ==> after.updateAt == Some(now))
      && r.outcome == Ok(MovieMapper.ToDto(after.(updateAt := before.updateAt), genres, countries))
  {
    match repo.FindById(id)
    case None => Effect(repo, NotFound(NotFoundMessage(id)))
    case Some(existing) =>
      var movie := LinkRelations(MovieMapper.PartialUpdate(req, existing), req, genres, countries);
      var (after, saved) := Save(repo, movie, now);
      Effect(after, Ok(MovieMapper.ToDto(saved, genres, countries)))
  }

  /** deleteMovie: on an absent id, NotFound and the table untouched;
      otherwise exactly that row goes, and with it its join-table rows. */
  function DeleteMovie(repo: Repo<Movie>, id: int): (r: Effect<Repo<Movie>, ()>)
    ensures Stored(repo) ==> Stored(r.after)
    ensures id !in repo.rows ==> r == Effect(repo, NotFound("Movie not found with id: " + IntToString(id)))
    ensures id in repo.rows ==>
      && r.outcome == Ok(())
      && r.after.rows.Keys == repo.rows.Keys - {id}
      && forall k | k in r.after.rows :: r.after.rows[k] == repo.rows[k]
  {
    if !repo.ExistsById(id) then Effect(repo, NotFound(NotFoundMessage(id)))
    else Effect(repo.DeleteById(id), Ok(()))
  }

  /** The response of a created movie nests exactly the genres of the
      listed ids that have a stored genre, and likewise the countries:
      unknown ids are dropped without a report. */
  lemma CreateLinksKnownIdsOnly(repo: Repo<Movie>, genres: Repo<Genre>, countries: Repo<Country>, req: MovieRequest, now: Timestamp)
    requires Stored(repo) && GenreService.Stored(genres) && CountryService.Stored(countries)
    requires Listed(req.genreIds) && Listed(req.countryIds)
    ensures var resp := CreateMovie(repo, genres, countries, req, now).outcome.value;
      && (forall d | d in resp.genres :: d.id.Some? && d.id.value in req.genreIds.value * genres.rows.Keys)
      && (forall k | k in req.genreIds.value * genres.rows.Keys :: GenreMapper.ToDto(genres.rows[k]) in resp.genres)
      && (forall d | d in resp.countries :: d.id.Some? && d.id.value in req.countryIds.value * countries.rows.Keys)
      && (forall k | k in req.countryIds.value * countries.rows.Keys :: CountryMapper.ToDto(countries.rows[k]) in resp.countries)
  {
  }

  /** A movie shows each linked genre as the genre table holds it now: once
      a linked genre is updated, the movie's response nests the response
      the update returned, with the update time the flush stamped. */
  lemma UpdatedGenreShowsInMovie(repo: Repo<Movie>, genres: Repo<Genre>, countries: Repo<Country>,
                                 genreId: int, req: GenreRequest, now: Timestamp, movieId: int)
    requires GenreService.Stored(genres)
    requires movieId in repo.rows && genreId in repo.rows[movieId].genres && genreId in genres.rows
    ensures var updated := GenreService.UpdateGenre(genres, genreId, req, now);
      updated.outcome.value.(updateAt := Some(now)) in GetMovieById(repo, updated.after, countries, movieId).value.genres
  {
  }

  /** Likewise for a linked country that is updated. */
  lemma UpdatedCountryShowsInMovie(repo: Repo<Movie>, genres: Repo<Genre>, countries: Repo<Country>,
                                   countryId: int, req: CountryRequest, now: Timestamp, movieId: int)
    requires CountryService.Stored(countries)
    requires movieId in repo.rows && countryId in repo.rows[movieId].countries && countryId in countries.rows
    ensures var updated := CountryService.UpdateCountry(countries, countryId, req, now);
      updated.outcome.value.(updateAt := Some(now)) in GetMovieById(repo, genres, updated.after, movieId).value.countries
  {
  }

  /** Once a genre is deleted, no movie's response nests it any more. */
  lemma DeletedGenreLeavesMovies(repo: Repo<Movie>, genres: Repo<Genre>, countries: Repo<Country>, genreId: int, movieId: int)
    requires GenreService.Stored(genres)
    requires movieId in repo.rows
    ensures forall d | d in GetMovieById(repo, GenreService.DeleteGenre(genres, genreId).after, countries, movieId).value.genres
      :: d.id != Some(genreId)
  {
  }

  /** Reading after an update yields what the update returned once the
      flush has run: with the new update time when a scalar field changed,
      and otherwise exactly the response. */
  lemma GetAfterUpdate(repo: Repo<Movie>, genres: Repo<Genre>, countries: Repo<Country>, id: int, req: MovieRequest, now: Timestamp)
    requires Stored(repo)
    requires id in repo.rows
    ensures var u := UpdateMovie(repo, genres, countries, id, req, now);
      && u.outcome.Ok?
      && u.outcome.value.updateAt == repo.rows[id].updateAt
      && (MovieMapper.PartialUpdate(req, repo.rows[id]) != repo.rows[id] ==>
            GetMovieById(u.after, genres, countries, id) == Ok(u.outcome.value.(updateAt := Some(now))))
      && (MovieMapper.PartialUpdate(req, repo.rows[id]) == repo.rows[id] ==>
            GetMovieById(u.after, genres, countries, id) == u.outcome)
  {
  }

  /** A created movie can be read back, as the response creation returned. */
  lemma GetAfterCreate(repo: Repo<Movie>, genres: Repo<Genre>, countries: Repo<Country>, req: MovieRequest, now: Timestamp)
    requires Stored(repo)
    ensures GetMovieById(CreateMovie(repo, genres, countries, req, now).after, genres, countries, repo.nextId)
         == CreateMovie(repo, genres, countries, req, now).outcome
  {
  }

  /** Deleting an id twice: the first call succeeds, the second is NotFound. */
  lemma DeleteTwice(repo: Repo<Movie>, genres: Repo<Genre>, countries: Repo<Country>, id: int)
    requires id in repo.rows
    ensures DeleteMovie(repo, id).outcome.Ok?
    ensures DeleteMovie(DeleteMovie(repo, id).after, id).outcome.NotFound?
    ensures GetMovieById(DeleteMovie(repo, id).after, genres, countries, id).NotFound?
  {
  }
}
