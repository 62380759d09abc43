/** WatchedMovieService: record that a user watched a movie, read, list and
    delete such records. Recording checks that the user exists, then that
    the movie exists, and only then saves; there is no check for an earlier
    record of the same pair. */
module WatchedMovieService {
  import opened Common
  import opened Text
  import opened Entities
  import opened Dtos
  import opened Repository
  import WatchedMovieMapper

  /** The record table is consistent: every row carries its own key as id. */
  ghost predicate Stored(repo: Repo<WatchedMovie>)
  {
    && repo.Valid()
    && forall k | k in repo.rows :: repo.rows[k].id == Some(k)
  }

  function UserNotFoundMessage(userId: int): string
  {
    "User not found with ID: " + IntToString(userId)
  }

  function MovieNotFoundMessage(movieId: int): string
  {
    "Movie not found with ID: " + IntToString(movieId)
  }

  function RecordNotFoundMessage(id: int): string
  {
    "Watched movie record not found with ID: " + IntToString(id)
  }

  /** save of a new record: it gets the next key, and its watch, creation
      and update times. */
  function Insert(repo: Repo<WatchedMovie>, w: WatchedMovie, now: Timestamp): (r: (Repo<WatchedMovie>, WatchedMovie))
    requires Stored(repo)
    requires w.id.None?
    ensures Stored(r.0)
    ensures r.1.id == Some(repo.nextId) && r.0.rows.Keys == repo.rows.Keys + {repo.nextId}
    ensures r.0.rows[repo.nextId] == r.1
    ensures r.1.user == w.user && r.1.movie == w.movie
    ensures r.1.watchedAt == Some(now) && r.1.createAt == Some(now) && r.1.updateAt == Some(now)
    ensures forall k | k in repo.rows :: r.0.rows[k] == repo.rows[k]
  {
    var saved := w.(id := Some(repo.nextId), watchedAt := Some(now), createAt := Some(now), updateAt := Some(now));
    (repo.Insert(saved), saved)
  }

  /** markMovieAsWatched: an unknown user is reported first, whatever the
      movie; then an unknown movie; in both cases nothing is saved.
      Otherwise exactly one record is added, under a fresh key, naming the
      request's user and movie, and every existing record is kept. */
  function MarkMovieAsWatched(repo: Repo<WatchedMovie>, users: Repo<User>, movies: Repo<Movie>, req: WatchedMovieRequest, now: Timestamp)
    : (r: Effect<Repo<WatchedMovie>, WatchedMovieDto>)
    requires Stored(repo)
    ensures Stored(r.after)
    ensures req.userId !in users.rows ==>
      r == Effect(repo, NotFound("User not found with ID: " + IntToString(req.userId)))
    ensures req.userId in users.rows && req.movieId !in movies.rows ==>
      r == Effect(repo, NotFound("Movie not found with ID: " + IntToString(req.movieId)))
    ensures req.userId in users.rows && req.movieId in movies.rows ==>
      && r.after.rows.Keys == repo.rows.Keys + {repo.nextId}
      && repo.nextId !in repo.rows
      && (forall k | k in repo.rows :: r.after.rows[k] == repo.rows[k])
      && r.after.rows[repo.nextId].user.id == Some(req.userId)
      && r.after.rows[repo.nextId].movie.id == Some(req.movieId)
      && r.outcome == Ok(WatchedMovieMapper.ToDto(r.after.rows[repo.nextId]))
      && r.outcome.value.id == Some(repo.nextId)
      && r.outcome.value.userId == Some(req.userId)
      && r.outcome.value.movieId == Some(req.movieId)
  {
    match users.FindById(req.userId)
    case None => Effect(repo, NotFound(UserNotFoundMessage(req.userId)))
    case Some(_) =>
      match movies.FindById(req.movieId)
      case None => Effect(repo, NotFound(MovieNotFoundMessage(req.movieId)))
      case Some(_) =>
        var (after, saved) := Insert(repo, WatchedMovieMapper.ToEntity(req), now);
        Effect(after, Ok(WatchedMovieMapper.ToDto(saved)))
  }

  /** getWatchedMovieById: the stored record's response, or NotFound naming
      the id. */
  function GetWatchedMovieById(repo: Repo<WatchedMovie>, id: int): (r: Outcome<WatchedMovieDto>)
    ensures r.NotFound? <==> id !in repo.rows
    ensures r.NotFound? ==> r.message == "Watched movie record not found with ID: " + IntToString(id)
    ensures r.Ok? ==> r.value == WatchedMovieMapper.ToDto(repo.rows[id])
    ensures r.Ok? && Stored(repo) ==> r.value.id == Some(id)
  {
    match repo.FindById(id)
    case None => NotFound(RecordNotFoundMessage(id))
    case Some(w) => Ok(WatchedMovieMapper.ToDto(w))
  }

  /** getAllWatchedMovies: one response per stored record, in the
      database's order. */
  method GetAllWatchedMovies(repo: Repo<WatchedMovie>, order: seq<int>) returns (r: seq<WatchedMovieDto>)
    requires IsEnumeration(order, repo.rows.Keys)
    ensures |r| == |order| == |repo.rows|
    ensures forall i | 0 <= i < |r| :: r[i] == WatchedMovieMapper.ToDto(repo.rows[order[i]])
    ensures forall k | k in repo.rows :: exists i | 0 <= i < |r| :: r[i] == WatchedMovieMapper.ToDto(repo.rows[k])
  {
    r := FindAllMapped(repo, order, WatchedMovieMapper.ToDto);
  }

  /** deleteWatchedMovie: on an absent id, NotFound and the table untouched;
      otherwise exactly that row goes. */
  function DeleteWatchedMovie(repo: Repo<WatchedMovie>, id: int): (r: Effect<Repo<WatchedMovie>, ()>)
    ensures Stored(repo) ==> Stored(r.after)
    ensures id !in repo.rows ==> r == Effect(repo, NotFound("Watched movie record not found with ID: " + IntToString(id)))
    ensures id in repo.rows ==>
      && r.outcome == Ok(())
      && r.after.rows.Keys == repo.rows.Keys - {id}
      && forall k | k in r.after.rows :: r.after.rows[k] == repo.rows[k]
  {
    if !repo.ExistsById(id) then Effect(repo, NotFound(RecordNotFoundMessage(id)))
    else Effect(repo.DeleteById(id), Ok(()))
  }

  /** Recording the same pair twice succeeds twice and leaves two distinct
      records naming that pair. */
  lemma DuplicatePairsAreKept(repo: Repo<WatchedMovie>, users: Repo<User>, movies: Repo<Movie>, req: WatchedMovieRequest, now: Timestamp)
    requires Stored(repo)
    requires req.userId in users.rows && req.movieId in movies.rows
    ensures var once := MarkMovieAsWatched(repo, users, movies, req, now).after;
            var twice := MarkMovieAsWatched(once, users, movies, req, now).after;
            && repo.nextId != once.nextId
            && repo.nextId in twice.rows && once.nextId in twice.rows
            && twice.rows[repo.nextId].user.id == twice.rows[once.nextId].user.id == Some(req.userId)
            && twice.rows[repo.nextId].movie.id == twice.rows[once.nextId].movie.id == Some(req.movieId)
  {
  }

  /** A recorded watch can be read back, as the response recording returned. */
  lemma GetAfterMark(repo: Repo<WatchedMovie>, users: Repo<User>, movies: Repo<Movie>, req: WatchedMovieRequest, now: Timestamp)
    requires Stored(repo)
    requires req.userId in users.rows && req.movieId in movies.rows
    ensures GetWatchedMovieById(MarkMovieAsWatched(repo, users, movies, req, now).after, repo.nextId)
         == MarkMovieAsWatched(repo, users, movies, req, now).outcome
  {
  }

  /** Deleting an id twice: the first call succeeds, the second is NotFound. */
  lemma DeleteTwice(repo: Repo<WatchedMovie>, id: int)
    requires id in repo.rows
    ensures DeleteWatchedMovie(repo, id).outcome.Ok?
    ensures DeleteWatchedMovie(DeleteWatchedMovie(repo, id).after, id).outcome.NotFound?
  {
  }
}
