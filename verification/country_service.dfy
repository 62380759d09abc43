/** CountryService: create, read, list, replace and delete countries over the
    country table. An update replaces the country with one built from the
    request, keeping only the old id, creation time and movies. */
module CountryService {
  import opened Common
  import opened Text
  import opened Entities
  import opened Dtos
  import opened Repository
  import CountryMapper

  /** The country table is consistent: every row carries its own key as id,
      and an update time, which the insert stamped and only a later stamp
      replaces. */
  ghost predicate Stored(repo: Repo<Country>)
  {
    && repo.Valid()
    && forall k | k in repo.rows :: repo.rows[k].id == Some(k) && repo.rows[k].updateAt.Some?
  }

  /** Two countrys agree on every column of the row: all but the inverse side
      movies, which the row does not hold. This is what Hibernate's dirty
      check compares at the flush. */
  predicate SameColumns(a: Country, b: Country)
  {
    a.(movies := b.movies) == b
  }

  /** The message of every NotFoundException this service throws. */
  function NotFoundMessage(id: int): string
  {
    "Country not found with ID: " + IntToString(id)
  }

  /** save, and the flush at the commit of the service's transaction. A
      country without id is inserted at once: it gets the next key and both
      timestamps, and the saved entity carries them. A country with an id is
      merged: the saved entity is the merged one as the flush finds it, and
      the flush writes it to its row, stamping a new update time exactly
      when a column differs from the stored row. */
  function Save(repo: Repo<Country>, c: Country, now: Timestamp): (r: (Repo<Country>, Country))
    requires Stored(repo)
    requires c.id.Some? ==> c.id.value in repo.rows
    ensures Stored(r.0)
    ensures c.id.None? ==>
      && r.1.id == Some(repo.nextId) && r.1.createAt == Some(now) && r.1.updateAt == Some(now)
      && r.1.(id := c.id, createAt := c.createAt, updateAt := c.updateAt) == c
      && r.0.rows.Keys == repo.rows.Keys + {repo.nextId}
      && r.0.rows[repo.nextId] == r.1
    ensures c.id.Some? ==>
      var k := c.id.value;
      && r.1 == c
      && r.0.rows.Keys == repo.rows.Keys
      && r.0.rows[k].(updateAt := c.updateAt) == c
      && (SameColumns(c, repo.rows[k]) ==> r.0.rows[k].updateAt == repo.rows[k].updateAt)
      && (!SameColumns(c, repo.rows[k]) ==> r.0.rows[k].updateAt == Some(now))
    ensures forall k | k in repo.rows && Some(k) != r.1.id :: r.0.rows[k] == repo.rows[k]
  {
    match c.id
    case None =>
      var saved := c.(id := Some(repo.nextId), createAt := Some(now), updateAt := Some(now));
      (repo.Insert(saved), saved)
    case Some(k) =>
      var flushed := if SameColumns(c, repo.rows[k]) then c else c.(updateAt := Some(now));
      (repo.Replace(k, flushed), c)
  }

  /** createCountry: one new row, under a key no row had, named by the
      request; every existing row is kept. */
  function CreateCountry(repo: Repo<Country>, req: CountryRequest, now: Timestamp): (r: Effect<Repo<Country>, CountryDto>)
    requires Stored(repo)
    ensures Stored(r.after)
    ensures repo.nextId !in repo.rows
    ensures r.after.rows.Keys == repo.rows.Keys + {repo.nextId}
    ensures forall k | k in repo.rows :: r.after.rows[k] == repo.rows[k]
    ensures r.after.rows[repo.nextId].name == req.name
    ensures r.after.rows[repo.nextId].movies == {}
    ensures r.outcome == Ok(CountryMapper.ToDto(r.after.rows[repo.nextId]))
    ensures r.outcome.value.id == Some(repo.nextId) && r.outcome.value.name == req.name
  {
    var (after, saved) := Save(repo, CountryMapper.ToEntity(req), now);
    Effect(after, Ok(CountryMapper.ToDto(saved)))
  }

  /** getCountryById: the stored country's response, or NotFound naming the id. */
  function GetCountryById(repo: Repo<Country>, id: int): (r: Outcome<CountryDto>)
    ensures r.NotFound? <==> id !in repo.rows
    ensures r.NotFound? ==> r.message == "Country not found with ID: " + IntToString(id)
    ensures r.Ok? ==> r.value == CountryMapper.ToDto(repo.rows[id])
    ensures r.Ok? && Stored(repo) ==> r.value.id == Some(id)
  {
    match repo.FindById(id)
    case None => NotFound(NotFoundMessage(id))
    case Some(c) => Ok(CountryMapper.ToDto(c))
  }

  /** getAllCountries: one response per stored country, in the database's order. */
  method GetAllCountries(repo: Repo<Country>, order: seq<int>) returns (r: seq<CountryDto>)
    requires IsEnumeration(order, repo.rows.Keys)
    ensures |r| == |order| == |repo.rows|
    ensures forall i | 0 <= i < |r| :: r[i] == CountryMapper.ToDto(repo.rows[order[i]])
    ensures forall k | k in repo.rows :: exists i | 0 <= i < |r| :: r[i] == CountryMapper.ToDto(repo.rows[k])
  {
    r := FindAllMapped(repo, order, CountryMapper.ToDto);
  }

  /** updateCountry: on an absent id, NotFound and the table untouched.
      Otherwise the row under id is replaced by a country built from the
      request alone (a null name is stored as null), which keeps the old
      id, creation time and movies; no other row changes. The merged country
      has no update time, so the flush always stamps the row, and the
      response shows the country before that stamp: with no update time. */
  function UpdateCountry(repo: Repo<Country>, id: int, req: CountryRequest, now: Timestamp): (r: Effect<Repo<Country>, CountryDto>)
    requires Stored(repo)
    ensures Stored(r.after)
    ensures id !in repo.rows ==> r == Effect(repo, NotFound("Country not found with ID: " + IntToString(id)))
    ensures id in repo.rows ==>
      && r.after.rows.Keys == repo.rows.Keys
      && (forall k | k in repo.rows && k != id :: r.after.rows[k] == repo.rows[k])
      && r.after.rows[id].id == Some(id)
      && r.after.rows[id].name == req.name
      && r.after.rows[id].createAt == repo.rows[id].createAt
      && r.after.rows[id].movies == repo.rows[id].movies
      && r.after.rows[id].updateAt == Some(now)
      && r.outcome == Ok(CountryMapper.ToDto(r.after.rows[id].(updateAt := None)))
      && r.outcome.value.updateAt.None?
  {
    match repo.FindById(id)
    case None => Effect(repo, NotFound(NotFoundMessage(id)))
    case Some(existing) =>
      var updated := CountryMapper.ToEntity(req).(id := existing.id, createAt := existing.createAt, movies := existing.movies);
      var (after, saved) := Save(repo, updated, now);
      Effect(after, Ok(CountryMapper.ToDto(saved)))
  }

  /** deleteCountry: on an absent id, NotFound and the table untouched;
      otherwise exactly that row goes. */
  function DeleteCountry(repo: Repo<Country>, id: int): (r: Effect<Repo<Country>, ()>)
    ensures Stored(repo) ==> Stored(r.after)
    ensures id !in repo.rows ==> r == Effect(repo, NotFound("Country not found with ID: " + IntToString(id)))
    ensures id in repo.rows ==>
      && r.outcome == Ok(())
      && r.after.rows.Keys == repo.rows.Keys - {id}
      && forall k | k in r.after.rows :: r.after.rows[k] == repo.rows[k]
  {
    if !repo.ExistsById(id) then Effect(repo, NotFound(NotFoundMessage(id)))
    else Effect(repo.DeleteById(id), Ok(()))
  }

  /** A created country can be read back, as the response creation returned. */
  lemma GetAfterCreate(repo: Repo<Country>, req: CountryRequest, now: Timestamp)
    requires Stored(repo)
    ensures GetCountryById(CreateCountry(repo, req, now).after, repo.nextId) == CreateCountry(repo, req, now).outcome
  {
  }

  /** Reading after an update yields what the update returned, except the
      update time: the response shows the merged country before the flush,
      with no update time, and the flush stamps the row with now. */
  lemma GetAfterUpdate(repo: Repo<Country>, id: int, req: CountryRequest, now: Timestamp)
    requires Stored(repo)
    requires id in repo.rows
    ensures var u := UpdateCountry(repo, id, req, now);
      && u.outcome.Ok? && u.outcome.value.updateAt.None?
      && GetCountryById(u.after, id) == Ok(u.outcome.value.(updateAt := Some(now)))
  {
  }

  /** Deleting an id twice: the first call succeeds, the second is NotFound,
      and reading the id afterwards is NotFound too. */
  lemma DeleteTwice(repo: Repo<Country>, id: int)
    requires id in repo.rows
    ensures DeleteCountry(repo, id).outcome.Ok?
    ensures DeleteCountry(DeleteCountry(repo, id).after, id).outcome.NotFound?
    ensures GetCountryById(DeleteCountry(repo, id).after, id).NotFound?
  {
  }

  /** An update is a replacement, not a merge: an update whose request has a
      null name stores a null name, where the mapper's partial update would
      have kept the old one. */
  lemma UpdateReplacesRatherThanMerges(repo: Repo<Country>, id: int, now: Timestamp)
    requires Stored(repo)
    requires id in repo.rows && repo.rows[id].name.Some?
    ensures UpdateCountry(repo, id, CountryRequest(None), now).after.rows[id].name.None?
    ensures CountryMapper.PartialUpdate(CountryRequest(None), repo.rows[id]).name == repo.rows[id].name
  {
  }
}
