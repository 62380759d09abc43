/** The MapStruct mapper between Country, its request body and its response
    body. */
module CountryMapper {
  import opened Common
  import opened Entities
  import opened Dtos

  /** toDto: the response carries the country's id, name and timestamps. */
  function ToDto(c: Country): (r: CountryDto)
    ensures r.id == c.id && r.name == c.name
    ensures r.createAt == c.createAt && r.updateAt == c.updateAt
  {
    CountryDto(c.id, c.name, c.createAt, c.updateAt)
  }

  /** toEntity: a new country named by the request; id, timestamps and movies
      are ignored, so they keep the builder's defaults. */
  function ToEntity(req: CountryRequest): (r: Country)
    ensures r.name == req.name
    ensures r.id.None? && r.createAt.None? && r.updateAt.None?
    ensures r.movies == {}
  {
    Country(None, req.name, {}, None, None)
  }

  /** partialUpdate: a non-null name overwrites the target's; id, timestamps
      and movies are never touched. */
  function PartialUpdate(req: CountryRequest, target: Country): (r: Country)
    ensures req.name.None? ==> r == target
    ensures req.name.Some? ==> r.name == req.name
    ensures r.id == target.id && r.movies == target.movies
    ensures r.createAt == target.createAt && r.updateAt == target.updateAt
  {
    target.(name := Merge(req.name, target.name))
  }

  /** Applying the same request twice is applying it once. */
  lemma PartialUpdateIdempotent(req: CountryRequest, target: Country)
    ensures PartialUpdate(req, PartialUpdate(req, target)) == PartialUpdate(req, target)
  {
  }

  /** Creating and updating agree: whatever a request states, the entity
      built from it and any entity updated by it state the same. */
  lemma PartialUpdateAgreesWithToEntity(req: CountryRequest, target: Country)
    requires req.name.Some?
    ensures PartialUpdate(req, target).name == ToEntity(req).name
  {
  }
}
