/** UserService: create, read, list, update and delete users over the user
    table. An update merges the request into the stored user: a null
    username keeps the old one. */
module UserService {
  import opened Common
  import opened Text
  import opened Entities
  import opened Dtos
  import opened Repository
  import UserMapper

  /** The user table is consistent: every row carries its own key as id,
      and an update time, which the insert stamped and only a later stamp
      replaces. */
  ghost predicate Stored(repo: Repo<User>)
  {
    && repo.Valid()
    && forall k | k in repo.rows :: repo.rows[k].id == Some(k) && repo.rows[k].updateAt.Some?
  }

  /** Two users agree on every column of the row: all but the inverse side
      watchedMovies, which the row does not hold. This is what Hibernate's
      dirty check compares at the flush. */
  predicate SameColumns(a: User, b: User)
  {
    a.(watchedMovies := b.watchedMovies) == b
  }

  /** USER_NOT_FOUND, "User not found with id: %s", formatted with the id. */
  function NotFoundMessage(id: int): string
  {
    "User not found with id: " + IntToString(id)
  }

  /** save, and the flush at the commit of the service's transaction. A
      user without id is inserted at once: it gets the next key and both
      timestamps, and the saved entity carries them. A user with an id is
      the managed entity itself: the saved entity is the user as the flush
      finds it, and the flush writes it to its row, stamping a new update
      time exactly when a column differs from the stored row. */
  function Save(repo: Repo<User>, u: User, now: Timestamp): (r: (Repo<User>, User))
    requires Stored(repo)
    requires u.id.Some? ==> u.id.value in repo.rows
    ensures Stored(r.0)
    ensures u.id.None? ==>
      && r.1.id == Some(repo.nextId) && r.1.createAt == Some(now) && r.1.updateAt == Some(now)
      && r.1.(id := u.id, createAt := u.createAt, updateAt := u.updateAt) == u
      && r.0.rows.Keys == repo.rows.Keys + {repo.nextId}
      && r.0.rows[repo.nextId] == r.1
    ensures u.id.Some? ==>
      var k := u.id.value;
      && r.1 == u
      && r.0.rows.Keys == repo.rows.Keys
      && r.0.rows[k].(updateAt := u.updateAt) == u
      && (SameColumns(u, repo.rows[k]) ==> r.0.rows[k].updateAt == repo.rows[k].updateAt)
      && (!SameColumns(u, repo.rows[k]) ==> r.0.rows[k].updateAt == Some(now))
    ensures forall k | k in repo.rows && Some(k) != r.1.id :: r.0.rows[k] == repo.rows[k]
  {
    match u.id
    case None =>
      var saved := u.(id := Some(repo.nextId), createAt := Some(now), updateAt := Some(now));
      (repo.Insert(saved), saved)
    case Some(k) =>
      var flushed := if SameColumns(u, repo.rows[k]) then u else u.(updateAt := Some(now));
      (repo.Replace(k, flushed), u)
  }

  /** createUser: one new row, under a key no row had, carrying the
      request's username; every existing row is kept. */
  function CreateUser(repo: Repo<User>, req: UserRequest, now: Timestamp): (r: Effect<Repo<User>, UserDto>)
    requires Stored(repo)
    ensures Stored(r.after)
    ensures repo.nextId !in repo.rows
    ensures r.after.rows.Keys == repo.rows.Keys + {repo.nextId}
    ensures forall k | k in repo.rows :: r.after.rows[k] == repo.rows[k]
    ensures r.after.rows[repo.nextId].username == req.username
    ensures r.after.rows[repo.nextId].watchedMovies == {}
    ensures r.outcome == Ok(UserMapper.ToDto(r.after.rows[repo.nextId]))
    ensures r.outcome.value.id == Some(repo.nextId) && r.outcome.value.username == req.username
  {
    var (after, saved) := Save(repo, UserMapper.ToEntity(req), now);
    Effect(after, Ok(UserMapper.ToDto(saved)))
  }

  /** getUserById: the stored user's response, or NotFound naming the id. */
  function GetUserById(repo: Repo<User>, id: int): (r: Outcome<UserDto>)
    ensures r.NotFound? <==> id !in repo.rows
    ensures r.NotFound? ==> r.message == "User not found with id: " + IntToString(id)
    ensures r.Ok? ==> r.value == UserMapper.ToDto(repo.rows[id])
    ensures r.Ok? && Stored(repo) ==> r.value.id == Some(id)
  {
    match repo.FindById(id)
    case None => NotFound(NotFoundMessage(id))
    case Some(u) => Ok(UserMapper.ToDto(u))
  }

  /** getAllUsers: one response per stored user, in the database's order. */
  method GetAllUsers(repo: Repo<User>, order: seq<int>) returns (r: seq<UserDto>)
    requires IsEnumeration(order, repo.rows.Keys)
    ensures |r| == |order| == |repo.rows|
    ensures forall i | 0 <= i < |r| :: r[i] == UserMapper.ToDto(repo.rows[order[i]])
    ensures forall k | k in repo.rows :: exists i | 0 <= i < |r| :: r[i] == UserMapper.ToDto(repo.rows[k])
  {
    r := FindAllMapped(repo, order, UserMapper.ToDto);
  }

  /** updateUser: on an absent id, NotFound and the table untouched.
      Otherwise a non-null username replaces the stored one and a null one
      keeps it; id, creation time and watched movies stay; no other row
      changes. The row gets a new update time only when its username
      changed, and the response shows the user before that stamp. */
  function UpdateUser(repo: Repo<User>, id: int, req: UserRequest, now: Timestamp): (r: Effect<Repo<User>, UserDto>)
    requires Stored(repo)
    ensures Stored(r.after)
    ensures id !in repo.rows ==> r == Effect(repo, NotFound("User not found with id: " + IntToString(id)))
    ensures id in repo.rows ==>
      && r.after.rows.Keys == repo.rows.Keys
      && (forall k | k in repo.rows && k != id :: r.after.rows[k] == repo.rows[k])
      && r.after.rows[id].id == Some(id)
      && (req.username.Some? ==> r.after.rows[id].username == req.username)
      && (req.username.None? ==> r.after.rows[id].username == repo.rows[id].username)
      && r.after.rows[id].watchedMovies == repo.rows[id].watchedMovies
      && r.after.rows[id].createAt == repo.rows[id].createAt
      && (r.after.rows[id].username == repo.rows[id].username ==> r.after.rows[id] == repo.rows[id])
      && (r.after.rows[id].username != repo.rows[id].username ==> r.after.rows[id].updateAt == Some(now))
      && r.outcome == Ok(UserMapper.ToDto(r.after.rows[id].(updateAt := repo.rows[id].updateAt)))
  {
    match repo.FindById(id)
    case None => Effect(repo, NotFound(NotFoundMessage(id)))
    case Some(existing) =>
      var (after, saved) := Save(repo, UserMapper.PartialUpdate(req, existing), now);
      Effect(after, Ok(UserMapper.ToDto(saved)))
  }

  /** deleteUser: on an absent id, NotFound and the table untouched;
      otherwise exactly that row goes. */
  function DeleteUser(repo: Repo<User>, id: int): (r: Effect<Repo<User>, ()>)
    ensures Stored(repo) ==> Stored(r.after)
    ensures id !in repo.rows ==> r == Effect(repo, NotFound("User not found with id: " + IntToString(id)))
    ensures id in repo.rows ==>
      && r.outcome == Ok(())
      && r.after.rows.Keys == repo.rows.Keys - {id}
      && forall k | k in r.after.rows :: r.after.rows[k] == repo.rows[k]
  {
    if !repo.ExistsById(id) then Effect(repo, NotFound(NotFoundMessage(id)))
    else Effect(repo.DeleteById(id), Ok(()))
  }

  /** A created user can be read back, as the response creation returned. */
  lemma GetAfterCreate(repo: Repo<User>, req: UserRequest, now: Timestamp)
    requires Stored(repo)
    ensures GetUserById(CreateUser(repo, req, now).after, repo.nextId) == CreateUser(repo, req, now).outcome
  {
  }

  /** Reading after an update yields what the update returned once the
      flush has run: with the new update time when the username changed,
      and otherwise exactly the response, which is what a read before the
      update gave. */
  lemma GetAfterUpdate(repo: Repo<User>, id: int, req: UserRequest, now: Timestamp)
    requires Stored(repo)
    requires id in repo.rows
    ensures var u := UpdateUser(repo, id, req, now);
      && u.outcome.Ok?
      && (req.username.Some? && req.username != repo.rows[id].username ==>
            GetUserById(u.after, id) == Ok(u.outcome.value.(updateAt := Some(now))))
      && (req.username.None? || req.username == repo.rows[id].username ==>
            GetUserById(u.after, id) == u.outcome == GetUserById(repo, id))
  {
  }

  /** Updating twice with the same request: the second update finds
      nothing to change, so it writes nothing, not even an update time. */
  lemma UpdateIdempotent(repo: Repo<User>, id: int, req: UserRequest, now: Timestamp, later: Timestamp)
    requires Stored(repo)
    requires id in repo.rows
    ensures UpdateUser(UpdateUser(repo, id, req, now).after, id, req, later).after
         == UpdateUser(repo, id, req, now).after
  {
  }

  /** Deleting an id twice: the first call succeeds, the second is NotFound. */
  lemma DeleteTwice(repo: Repo<User>, id: int)
    requires id in repo.rows
    ensures DeleteUser(repo, id).outcome.Ok?
    ensures DeleteUser(DeleteUser(repo, id).after, id).outcome.NotFound?
    ensures GetUserById(DeleteUser(repo, id).after, id).NotFound?
  {
  }
}
