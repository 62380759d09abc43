/** The MapStruct mapper between User, its request body and its response
    body. */
module UserMapper {
  import opened Common
  import opened Entities
  import opened Dtos

  /** toDto: the response carries the user's id, username and timestamps;
      the watched-movie records stay behind. */
  function ToDto(u: User): (r: UserDto)
    ensures r.id == u.id && r.username == u.username
    ensures r.createAt == u.createAt && r.updateAt == u.updateAt
  {
    UserDto(u.id, u.username, u.createAt, u.updateAt)
  }

  /** toEntity: only the username is taken from the request; id, timestamps
      and watched movies are ignored. */
  function ToEntity(req: UserRequest): (r: User)
    ensures r.username == req.username
    ensures r.id.None? && r.createAt.None? && r.updateAt.None?
    ensures r.watchedMovies == {}
  {
    User(None, req.username, {}, None, None)
  }

  /** partialUpdate: a null username leaves the user exactly as it was; a
      non-null one replaces the username and nothing else. */
  function PartialUpdate(req: UserRequest, target: User): (r: User)
    ensures req.username.None? ==> r == target
    ensures req.username.Some? ==> r == target.(username := req.username)
  {
    target.(username := Merge(req.username, target.username))
  }

  /** Applying the same request twice is applying it once. */
  lemma PartialUpdateIdempotent(req: UserRequest, target: User)
    ensures PartialUpdate(req, PartialUpdate(req, target)) == PartialUpdate(req, target)
  {
  }
}
