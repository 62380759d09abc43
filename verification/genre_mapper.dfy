/** The MapStruct mapper between Genre, its request body and its response
    body. */
module GenreMapper {
  import opened Common
  import opened Entities
  import opened Dtos

  /** toDto: the response carries the genre's id, name and timestamps. */
  function ToDto(g: Genre): (r: GenreDto)
    ensures r.id == g.id && r.name == g.name
    ensures r.createAt == g.createAt && r.updateAt == g.updateAt
  {
    GenreDto(g.id, g.name, g.createAt, g.updateAt)
  }

  /** toEntity: a new genre named by the request; id, timestamps and movies
      are ignored, so they keep the builder's defaults. */
  function ToEntity(req: GenreRequest): (r: Genre)
    ensures r.name == req.name
    ensures r.id.None? && r.createAt.None? && r.updateAt.None?
    ensures r.movies == {}
  {
    Genre(None, req.name, {}, None, None)
  }

  /** partialUpdate: a non-null name overwrites the target's; id, timestamps
      and movies are never touched. */
  function PartialUpdate(req: GenreRequest, target: Genre): (r: Genre)
    ensures req.name.None? ==> r == target
    ensures req.name.Some? ==> r.name == req.name
    ensures r.id == target.id && r.movies == target.movies
    ensures r.createAt == target.createAt && r.updateAt == target.updateAt
  {
    target.(name := Merge(req.name, target.name))
  }

  /** Applying the same request twice is applying it once. */
  lemma PartialUpdateIdempotent(req: GenreRequest, target: Genre)
    ensures PartialUpdate(req, PartialUpdate(req, target)) == PartialUpdate(req, target)
  {
  }

  /** Creating and updating agree: whatever a request states, the entity
      built from it and any entity updated by it state the same. */
  lemma PartialUpdateAgreesWithToEntity(req: GenreRequest, target: Genre)
    requires req.name.Some?
    ensures PartialUpdate(req, target).name == ToEntity(req).name
  {
  }
}
