/** GenreService: create, read, list, replace and delete genres over the
    genre table. An update replaces the genre with one built from the
    request, keeping only the old id, creation time and movies. */
module GenreService {
  import opened Common
  import opened Text
  import opened Entities
  import opened Dtos
  import opened Repository
  import GenreMapper

  /** The genre table is consistent: every row carries its own key as id,
      and an update time, which the insert stamped and only a later stamp
      replaces. */
  ghost predicate Stored(repo: Repo<Genre>)
  {
    && repo.Valid()
    && forall k | k in repo.rows :: repo.rows[k].id == Some(k) && repo.rows[k].updateAt.Some?
  }

  /** Two genres agree on every column of the row: all but the inverse side
      movies, which the row does not hold. This is what Hibernate's dirty
      check compares at the flush. */
  predicate SameColumns(a: Genre, b: Genre)
  {
    a.(movies := b.movies) == b
  }

  /** The message of every NotFoundException this service throws. */
  function NotFoundMessage(id: int): string
  {
    "Genre not found with ID: " + IntToString(id)
  }

  /** save, and the flush at the commit of the service's transaction. A
      genre without id is inserted at once: it gets the next key and both
      timestamps, and the saved entity carries them. A genre with an id is
      merged: the saved entity is the merged one as the flush finds it, and
      the flush writes it to its row, stamping a new update time exactly
      when a column differs from the stored row. */
  function Save(repo: Repo<Genre>, g: Genre, now: Timestamp): (r: (Repo<Genre>, Genre))
    requires Stored(repo)
    requires g.id.Some? ==> g.id.value in repo.rows
    ensures Stored(r.0)
    ensures g.id.None? ==>
      && r.1.id == Some(repo.nextId) && r.1.createAt == Some(now) && r.1.updateAt == Some(now)
      && r.1.(id := g.id, createAt := g.createAt, updateAt := g.updateAt) == g
      && r.0.rows.Keys == repo.rows.Keys + {repo.nextId}
      && r.0.rows[repo.nextId] == r.1
    ensures g.id.Some? ==>
      var k := g.id.value;
      && r.1 == g
      && r.0.rows.Keys == repo.rows.Keys
      && r.0.rows[k].(updateAt := g.updateAt) == g
      && (SameColumns(g, repo.rows[k]) ==> r.0.rows[k].updateAt == repo.rows[k].updateAt)
      && (!SameColumns(g, repo.rows[k]) ==> r.0.rows[k].updateAt == Some(now))
    ensures forall k | k in repo.rows && Some(k) != r.1.id :: r.0.rows[k] == repo.rows[k]
  {
    match g.id
    case None =>
      var saved := g.(id := Some(repo.nextId), createAt := Some(now), updateAt := Some(now));
      (repo.Insert(saved), saved)
    case Some(k) =>
      var flushed := if SameColumns(g, repo.rows[k]) then g else g.(updateAt := Some(now));
      (repo.Replace(k, flushed), g)
  }

  /** createGenre: one new row, under a key no row had, named by the
      request; every existing row is kept. */
  function CreateGenre(repo: Repo<Genre>, req: GenreRequest, now: Timestamp): (r: Effect<Repo<Genre>, GenreDto>)
    requires Stored(repo)
    ensures Stored(r.after)
    ensures repo.nextId !in repo.rows
    ensures r.after.rows.Keys == repo.rows.Keys + {repo.nextId}
    ensures forall k | k in repo.rows :: r.after.rows[k] == repo.rows[k]
    ensures r.after.rows[repo.nextId].name == req.name
    ensures r.after.rows[repo.nextId].movies == {}
    ensures r.outcome == Ok(GenreMapper.ToDto(r.after.rows[repo.nextId]))
    ensures r.outcome.value.id == Some(repo.nextId) && r.outcome.value.name == req.name
  {
    var (after, saved) := Save(repo, GenreMapper.ToEntity(req), now);
    Effect(after, Ok(GenreMapper.ToDto(saved)))
  }

  /** getGenreById: the stored genre's response, or NotFound naming the id. */
  function GetGenreById(repo: Repo<Genre>, id: int): (r: Outcome<GenreDto>)
    ensures r.NotFound? <==> id !in repo.rows
    ensures r.NotFound? ==> r.message == "Genre not found with ID: " + IntToString(id)
    ensures r.Ok? ==> r.value == GenreMapper.ToDto(repo.rows[id])
    ensures r.Ok? && Stored(repo) ==> r.value.id == Some(id)
  {
    match repo.FindById(id)
    case None => NotFound(NotFoundMessage(id))
    case Some(g) => Ok(GenreMapper.ToDto(g))
  }

  /** getAllGenres: one response per stored genre, in the database's order. */
  method GetAllGenres(repo: Repo<Genre>, order: seq<int>) returns (r: seq<GenreDto>)
    requires IsEnumeration(order, repo.rows.Keys)
    ensures |r| == |order| == |repo.rows|
    ensures forall i | 0 <= i < |r| :: r[i] == GenreMapper.ToDto(repo.rows[order[i]])
    ensures forall k | k in repo.rows :: exists i | 0 <= i < |r| :: r[i] == GenreMapper.ToDto(repo.rows[k])
  {
    r := FindAllMapped(repo, order, GenreMapper.ToDto);
  }

  /** updateGenre: on an absent id, NotFound and the table untouched.
      Otherwise the row under id is replaced by a genre built from the
      request alone (a null name is stored as null), which keeps the old
      id, creation time and movies; no other row changes. The merged genre
      has no update time, so the flush always stamps the row, and the
      response shows the genre before that stamp: with no update time. */
  function UpdateGenre(repo: Repo<Genre>, id: int, req: GenreRequest, now: Timestamp): (r: Effect<Repo<Genre>, GenreDto>)
    requires Stored(repo)
    ensures Stored(r.after)
    ensures id !in repo.rows ==> r == Effect(repo, NotFound("Genre not found with ID: " + IntToString(id)))
    ensures id in repo.rows ==>
      && r.after.rows.Keys == repo.rows.Keys
      && (forall k | k in repo.rows && k != id :: r.after.rows[k] == repo.rows[k])
      && r.after.rows[id].id == Some(id)
      && r.after.rows[id].name == req.name
      && r.after.rows[id].createAt == repo.rows[id].createAt
      && r.after.rows[id].movies == repo.rows[id].movies
      && r.after.rows[id].updateAt == Some(now)
      && r.outcome == Ok(GenreMapper.ToDto(r.after.rows[id].(updateAt := None)))
      && r.outcome.value.updateAt.None?
  {
    match repo.FindById(id)
    case None => Effect(repo, NotFound(NotFoundMessage(id)))
    case Some(existing) =>
      var updated := GenreMapper.ToEntity(req).(id := existing.id, createAt := existing.createAt, movies := existing.movies);
      var (after, saved) := Save(repo, updated, now);
      Effect(after, Ok(GenreMapper.ToDto(saved)))
  }

  /** deleteGenre: on an absent id, NotFound and the table untouched;
      otherwise exactly that row goes. */
  function DeleteGenre(repo: Repo<Genre>, id: int): (r: Effect<Repo<Genre>, ()>)
    ensures Stored(repo) ==> Stored(r.after)
    ensures id !in repo.rows ==> r == Effect(repo, NotFound("Genre not found with ID: " + IntToString(id)))
    ensures id in repo.rows ==>
      && r.outcome == Ok(())
      && r.after.rows.Keys == repo.rows.Keys - {id}
      && forall k | k in r.after.rows :: r.after.rows[k] == repo.rows[k]
  {
    if !repo.ExistsById(id) then Effect(repo, NotFound(NotFoundMessage(id)))
    else Effect(repo.DeleteById(id), Ok(()))
  }

  /** A created genre can be read back, as the response creation returned. */
  lemma GetAfterCreate(repo: Repo<Genre>, req: GenreRequest, now: Timestamp)
    requires Stored(repo)
    ensures GetGenreById(CreateGenre(repo, req, now).after, repo.nextId) == CreateGenre(repo, req, now).outcome
  {
  }

  /** Reading after an update yields what the update returned, except the
      update time: the response shows the merged genre before the flush,
      with no update time, and the flush stamps the row with now. */
  lemma GetAfterUpdate(repo: Repo<Genre>, id: int, req: GenreRequest, now: Timestamp)
    requires Stored(repo)
    requires id in repo.rows
    ensures var u := UpdateGenre(repo, id, req, now);
      && u.outcome.Ok? && u.outcome.value.updateAt.None?
      && GetGenreById(u.after, id) == Ok(u.outcome.value.(updateAt := Some(now)))
  {
  }

  /** Deleting an id twice: the first call succeeds, the second is NotFound,
      and reading the id afterwards is NotFound too. */
  lemma DeleteTwice(repo: Repo<Genre>, id: int)
    requires id in repo.rows
    ensures DeleteGenre(repo, id).outcome.Ok?
    ensures DeleteGenre(DeleteGenre(repo, id).after, id).outcome.NotFound?
    ensures GetGenreById(DeleteGenre(repo, id).after, id).NotFound?
  {
  }

  /** An update is a replacement, not a merge: an update whose request has a
      null name stores a null name, where the mapper's partial update would
      have kept the old one. */
  lemma UpdateReplacesRatherThanMerges(repo: Repo<Genre>, id: int, now: Timestamp)
    requires Stored(repo)
    requires id in repo.rows && repo.rows[id].name.Some?
    ensures UpdateGenre(repo, id, GenreRequest(None), now).after.rows[id].name.None?
    ensures GenreMapper.PartialUpdate(GenreRequest(None), repo.rows[id]).name == repo.rows[id].name
  {
  }
}
