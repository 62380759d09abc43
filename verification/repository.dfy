/** A Spring Data JPA repository seen as a table: rows keyed by primary key,
    and the IDENTITY counter from which the database draws the key of the
    next inserted row. */
module Repository {
  import opened Common

  datatype Repo<T(==)> = Repo(rows: map<int, T>, nextId: int)
  {
    /** Every stored key was drawn from the counter before; keys start at 1. */
    ghost predicate Valid()
    {
      && 1 <= nextId
      && forall k | k in rows :: 1 <= k < nextId
    }

    /** findById: the row under `id`, or an empty Optional. */
    function FindById(id: int): (r: Option<T>)
      ensures r.Some? <==> id in rows
      ensures r.Some? ==> r.value == rows[id]
    {
      if id in rows then Some(rows[id]) else None
    }

    /** existsById */
    predicate ExistsById(id: int)
    {
      id in rows
    }

    /** deleteById: exactly the row under `id` goes; the counter never moves
        back. */
    function DeleteById(id: int): (r: Repo<T>)
      ensures r.rows.Keys == rows.Keys - {id}
      ensures forall k | k in r.rows :: r.rows[k] == rows[k]
      ensures r.nextId == nextId
      ensures Valid() ==> r.Valid()
    {
      Repo(rows - {id}, nextId)
    }

    /** findAllById: the stored rows among the given keys. Keys with no row
        are skipped silently. */
    function FindAllById(ids: set<int>): (r: set<T>)
      ensures forall k | k in ids && k in rows :: rows[k] in r
      ensures forall e | e in r :: exists k | k in ids && k in rows :: rows[k] == e
    {
      set k | k in ids && k in rows :: rows[k]
    }

    /** save of a new entity: the row goes under the counter's value, which
        was free, and the counter moves on. */
    function Insert(e: T): (r: Repo<T>)
      requires Valid()
      ensures r.Valid()
      ensures nextId !in rows
      ensures r.rows.Keys == rows.Keys + {nextId}
      ensures r.rows[nextId] == e
      ensures forall k | k in rows :: r.rows[k] == rows[k]
    {
      Repo(rows[nextId := e], nextId + 1)
    }

    /** save of an entity that already has a row: the row is overwritten in
        place. */
    function Replace(id: int, e: T): (r: Repo<T>)
      requires id in rows
      ensures r.rows.Keys == rows.Keys
      ensures r.rows[id] == e
      ensures forall k | k in rows && k != id :: r.rows[k] == rows[k]
      ensures Valid() ==> r.Valid()
    {
      Repo(rows[id := e], nextId)
    }
  }

  /** The order in which findAll hands back a table: every key exactly once.
      The order itself is the database's choice. */
  ghost predicate IsEnumeration(order: seq<int>, keys: set<int>)
  {
    && (forall i | 0 <= i < |order| :: order[i] in keys)
    && (forall k | k in keys :: k in order)
    && (forall i, j | 0 <= i < j < |order| :: order[i] != order[j])
  }

  /** A sequence without repetitions has as many elements as its set. */
  lemma {:induction false} DistinctCardinality(s: seq<int>)
    requires forall i, j | 0 <= i < j < |s| :: s[i] != s[j]
    ensures |set x | x in s| == |s|
  {
    if s != [] {
      var rest := s[1..];
      DistinctCardinality(rest);
      assert (set x | x in s) == (set x | x in rest) + {s[0]};
      assert s[0] !in rest;
    }
  }

  /** An enumeration lists as many keys as the table has rows. */
  lemma EnumerationLength(order: seq<int>, keys: set<int>)
    requires IsEnumeration(order, keys)
    ensures |order| == |keys|
  {
    DistinctCardinality(order);
    var listed := set x | x in order;
    forall k | k in keys
      ensures k in listed
    {
      assert k in order;
    }
    assert listed == keys;
  }

  /** findAll().stream().map(toDto).toList(): one mapped element per stored
      row, in the order the database returns them. */
  method FindAllMapped<T, D>(repo: Repo<T>, order: seq<int>, toDto: T -> D) returns (r: seq<D>)
    requires IsEnumeration(order, repo.rows.Keys)
    ensures |r| == |order| == |repo.rows|
    ensures forall i | 0 <= i < |r| :: r[i] == toDto(repo.rows[order[i]])
    ensures forall k | k in repo.rows :: exists i | 0 <= i < |r| :: r[i] == toDto(repo.rows[k])
  {
    EnumerationLength(order, repo.rows.Keys);
    r := [];
    var n := 0;
    while n < |order|
      invariant n <= |order|
      invariant |r| == n
      invariant forall i | 0 <= i < n :: r[i] == toDto(repo.rows[order[i]])
    {
      r := r + [toDto(repo.rows[order[n]])];
      n := n + 1;
    }
    forall k | k in repo.rows
      ensures exists i | 0 <= i < |r| :: r[i] == toDto(repo.rows[k])
    {
      var i :| 0 <= i < |order| && order[i] == k;
      assert r[i] == toDto(repo.rows[k]);
    }
  }
}
