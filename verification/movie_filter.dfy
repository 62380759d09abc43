/** MovieFilter: the optional query parameters of a movie search, turned
    into a conjunction of SQL conditions on a movie row. A null (or empty,
    or blank) parameter contributes no condition. The two id-set parameters
    are "all of" constraints, written in SQL as a grouped count of the
    movie's matching join-table rows compared with the size of the set. */
module MovieFilter {
  import opened Common
  import opened Text
  import opened Entities

  /** What the conditions read of a movie: its release date and title
      columns, and the ids in its two join tables. */
  datatype MovieRow = MovieRow(
    releaseDate: Option<Date>,
    title: Option<string>,
    genreIds: set<int>,
    countryIds: set<int>)

  /** The row of a movie entity. */
  function RowOf(m: Movie): (r: MovieRow)
    ensures r.releaseDate == m.releaseDate && r.title == m.title
    ensures r.genreIds == m.genres && r.countryIds == m.countries
  {
    MovieRow(m.releaseDate, m.title, m.genres, m.countries)
  }

  datatype Filter = Filter(
    releaseDateGte: Option<Date>,
    releaseDateLte: Option<Date>,
    titleLike: Option<string>,
    genresIdIn: Option<set<int>>,
    countriesIdIn: Option<set<int>>)

  /** One non-null sub-specification. */
  datatype Condition =
    | ReleasedOnOrAfter(bound: Date)
    | ReleasedOnOrBefore(bound: Date)
    | TitleLike(pattern: string)
    | TitleLikeEscaped(pattern: string)
    | HasGenres(ids: set<int>)
    | HasCountries(ids: set<int>)

  function ReleaseDateGteSpec(f: Filter): Option<Condition>
  {
    if f.releaseDateGte.Some? then Some(ReleasedOnOrAfter(f.releaseDateGte.value)) else None
  }

  function ReleaseDateLteSpec(f: Filter): Option<Condition>
  {
    if f.releaseDateLte.Some? then Some(ReleasedOnOrBefore(f.releaseDateLte.value)) else None
  }

  /** The lower-cased title must be LIKE '%' + lower(titleLike) + '%'; the
      parameter is neither trimmed nor escaped. */
  function TitleLikeSpec(f: Filter): Option<Condition>
  {
    if HasText(f.titleLike) then Some(TitleLike("%" + Lower(f.titleLike.value) + "%")) else None
  }

  function GenresIdInSpec(f: Filter): Option<Condition>
  {
    if f.genresIdIn.None? || f.genresIdIn.value == {} then None else Some(HasGenres(f.genresIdIn.value))
  }

  function CountriesIdInSpec(f: Filter): Option<Condition>
  {
    if f.countriesIdIn.None? || f.countriesIdIn.value == {} then None else Some(HasCountries(f.countriesIdIn.value))
  }

  /** The non-null entries, in order: what Specification.where(..).and(..)
      keeps of its arguments. */
  function Present(specs: seq<Option<Condition>>): (r: seq<Condition>)
    ensures forall c | c in r :: Some(c) in specs
    ensures forall i | 0 <= i < |specs| && specs[i].Some? :: specs[i].value in r
  {
    if specs == [] then []
    else
      var rest := Present(specs[1..]);
      assert forall i | 1 <= i < |specs| :: specs[i] == specs[1..][i - 1];
      if specs[0].Some? then [specs[0].value] + rest else rest
  }

  /** toSpecification */
  function ToSpecification(f: Filter): seq<Condition>
  {
    Present([ReleaseDateGteSpec(f), ReleaseDateLteSpec(f), TitleLikeSpec(f), GenresIdInSpec(f), CountriesIdInSpec(f)])
  }

  /** SQL LIKE without an escape character: '%' matches any run of
      characters, '_' any one character, and every other character itself. */
  predicate Like(s: string, p: string)
    decreases |s| + |p|
  {
    if p == [] then s == []
    else if p[0] == '%' then Like(s, p[1..]) || (s != [] && Like(s[1..], p))
    else if p[0] == '_' then s != [] && Like(s[1..], p[1..])
    else s != [] && s[0] == p[0] && Like(s[1..], p[1..])
  }

  /** The subquery of the two relationship conditions, for one movie: its
      join-table ids that are IN the requested set, grouped by movie; EXISTS
      holds when that group has a row and COUNT(DISTINCT id) equals the size
      of the requested set. */
  predicate CountMatches(linked: set<int>, requested: set<int>)
  {
    linked * requested != {} && |linked * requested| == |requested|
  }

  /** One condition on one row. A comparison with a NULL column is not true. */
  predicate Holds(c: Condition, m: MovieRow)
  {
    match c
    case ReleasedOnOrAfter(bound) => m.releaseDate.Some? && m.releaseDate.value >= bound
    case ReleasedOnOrBefore(bound) => m.releaseDate.Some? && m.releaseDate.value <= bound
    case TitleLike(pattern) => m.title.Some? && Like(Lower(m.title.value), pattern)
    case TitleLikeEscaped(pattern) => m.title.Some? && LikeEscaped(Lower(m.title.value), pattern)
    case HasGenres(ids) => CountMatches(m.genreIds, ids)
    case HasCountries(ids) => CountMatches(m.countryIds, ids)
  }

  /** A row passes the filter when it meets every condition of the
      specification. */
  predicate Matches(f: Filter, m: MovieRow)
  {
    forall c | c in ToSpecification(f) :: Holds(c, m)
  }

  /** The filter applied to a list of rows: the rows that pass, in their
      order. */
  function Select(f: Filter, rows: seq<MovieRow>): (r: seq<MovieRow>)
    ensures |r| <= |rows|
    ensures forall m | m in r :: m in rows && Matches(f, m)
    ensures forall m | m in rows && Matches(f, m) :: m in r
  {
    if rows == [] then []
    else
      var rest := Select(f, rows[1..]);
      if Matches(f, rows[0]) then [rows[0]] + rest else rest
  }

  /** The characters LIKE may give a meaning of their own: the two
      wildcards, and the backslash, which PostgreSQL, H2 and MySQL take as
      the escape character of a LIKE that declares none. */
  predicate NoWildcards(s: string)
  {
    forall i | 0 <= i < |s| :: s[i] != '%' && s[i] != '_' && s[i] != '\\'
  }

  /** What the filter is meant to select, stated without SQL: each set
      parameter bounds the release date, the title contains the parameter
      regardless of ASCII case, and the movie has all of the requested
      genres and all of the requested countries. */
  predicate Intended(f: Filter, m: MovieRow)
  {
    && (f.releaseDateGte.Some? ==> m.releaseDate.Some? && m.releaseDate.value >= f.releaseDateGte.value)
    && (f.releaseDateLte.Some? ==> m.releaseDate.Some? && m.releaseDate.value <= f.releaseDateLte.value)
    && (HasText(f.titleLike) ==> m.title.Some? && Contains(Lower(m.title.value), Lower(f.titleLike.value)))
    && (f.genresIdIn.Some? ==> f.genresIdIn.value <= m.genreIds)
    && (f.countriesIdIn.Some? ==> f.countriesIdIn.value <= m.countryIds)
  }

  /** A subset as large as its superset is the superset. */
  lemma SubsetOfSameSize(a: set<int>, b: set<int>)
    requires a <= b && |a| == |b|
    ensures a == b
  {
    var rest := b - a;
    assert b == a + rest;
    assert a !! rest;
    assert |b| == |a| + |rest|;
  }

  /** The count-distinct subquery is a subset test: a movie passes it
      exactly when it is linked to every requested id. */
  lemma CountMatchesIsSubset(linked: set<int>, requested: set<int>)
    requires requested != {}
    ensures CountMatches(linked, requested) <==> requested <= linked
  {
    var common := linked * requested;
    if CountMatches(linked, requested) {
      SubsetOfSameSize(common, requested);
    }
    if requested <= linked {
      assert common == requested;
    }
  }

  lemma {:induction false} LikeAnything(s: string)
    ensures Like(s, "%")
    decreases |s|
  {
    if s != [] {
      LikeAnything(s[1..]);
    }
  }

  /** A literal followed by '%' matches exactly the strings it begins. */
  lemma {:induction false} LikeLiteralPrefix(s: string, q: string)
    requires NoWildcards(q)
    ensures Like(s, q + "%") <==> q <= s
    decreases |q|
  {
    if q == [] {
      assert q + "%" == "%";
      LikeAnything(s);
    } else {
      var p := q + "%";
      assert p[0] == q[0] && p[1..] == q[1..] + "%";
      if s != [] {
        LikeLiteralPrefix(s[1..], q[1..]);
        assert q <= s <==> (s[0] == q[0] && q[1..] <= s[1..]);
      }
    }
  }

  /** '%' followed by a rest matches a string exactly when the rest matches
      one of its suffixes. */
  lemma {:induction false} LikeLeadingPercent(s: string, rest: string)
    ensures Like(s, "%" + rest) <==> exists i | 0 <= i <= |s| :: Like(s[i..], rest)
    decreases |s|
  {
    var p := "%" + rest;
    assert p[0] == '%' && p[1..] == rest;
    assert s[0..] == s;
    if s != [] {
      LikeLeadingPercent(s[1..], rest);
      if exists i | 0 <= i <= |s| :: Like(s[i..], rest) {
        var i :| 0 <= i <= |s| && Like(s[i..], rest);
        if i > 0 {
          assert s[1..][i - 1..] == s[i..];
        }
      }
      if exists j | 0 <= j <= |s[1..]| :: Like(s[1..][j..], rest) {
        var j :| 0 <= j <= |s[1..]| && Like(s[1..][j..], rest);
        assert s[1..][j..] == s[j + 1..];
      }
    }
  }

  /** With no wildcard in the parameter, the title condition is a substring
      test. */
  lemma LikeIsContains(s: string, q: string)
    requires NoWildcards(q)
    ensures Like(s, "%" + q + "%") <==> Contains(s, q)
  {
    assert "%" + q + "%" == "%" + (q + "%");
    LikeLeadingPercent(s, q + "%");
    forall i | 0 <= i <= |s|
      ensures Like(s[i..], q + "%") <==> q <= s[i..]
    {
      LikeLiteralPrefix(s[i..], q);
    }
  }

  /** Lower-casing cannot create a wildcard. */
  lemma LowerKeepsNoWildcards(q: string)
    requires NoWildcards(q)
    ensures NoWildcards(Lower(q))
  {
  }

  /** A row passes the specification exactly when it meets each non-null
      sub-specification. */
  lemma MatchesEachSpec(f: Filter, m: MovieRow)
    ensures Matches(f, m) <==>
      && (ReleaseDateGteSpec(f).Some? ==> Holds(ReleaseDateGteSpec(f).value, m))
      && (ReleaseDateLteSpec(f).Some? ==> Holds(ReleaseDateLteSpec(f).value, m))
      && (TitleLikeSpec(f).Some? ==> Holds(TitleLikeSpec(f).value, m))
      && (GenresIdInSpec(f).Some? ==> Holds(GenresIdInSpec(f).value, m))
      && (CountriesIdInSpec(f).Some? ==> Holds(CountriesIdInSpec(f).value, m))
  {
    var specs := [ReleaseDateGteSpec(f), ReleaseDateLteSpec(f), TitleLikeSpec(f), GenresIdInSpec(f), CountriesIdInSpec(f)];
    assert ToSpecification(f) == Present(specs);
    assert specs[0] == ReleaseDateGteSpec(f) && specs[1] == ReleaseDateLteSpec(f) && specs[2] == TitleLikeSpec(f);
    assert specs[3] == GenresIdInSpec(f) && specs[4] == CountriesIdInSpec(f);
  }

  /** The filter selects what it is meant to: the SQL of toSpecification,
      count-distinct subqueries included, agrees with the plain statement,
      as long as the title parameter carries no LIKE wildcard. */
  lemma MatchesIffIntended(f: Filter, m: MovieRow)
    requires f.titleLike.Some? ==> NoWildcards(f.titleLike.value)
    ensures Matches(f, m) <==> Intended(f, m)
  {
    MatchesEachSpec(f, m);
    if HasText(f.titleLike) {
      LowerKeepsNoWildcards(f.titleLike.value);
      if m.title.Some? {
        LikeIsContains(Lower(m.title.value), Lower(f.titleLike.value));
      }
    }
    if f.genresIdIn.Some? && f.genresIdIn.value != {} {
      CountMatchesIsSubset(m.genreIds, f.genresIdIn.value);
    }
    if f.countriesIdIn.Some? && f.countriesIdIn.value != {} {
      CountMatchesIsSubset(m.countryIds, f.countriesIdIn.value);
    }
  }

  /** With every parameter null, empty or blank the specification has no
      condition, and every movie passes. */
  lemma UnconstrainedFilterMatchesAll(f: Filter, m: MovieRow)
    requires f.releaseDateGte.None? && f.releaseDateLte.None? && !HasText(f.titleLike)
    requires f.genresIdIn.None? || f.genresIdIn.value == {}
    requires f.countriesIdIn.None? || f.countriesIdIn.value == {}
    ensures ToSpecification(f) == []
    ensures Matches(f, m)
  {
  }

  /** A requested genre the movie lacks excludes it, and so does a
      requested country it lacks. */
  lemma MissingIdExcludes(f: Filter, m: MovieRow, id: int)
    requires (f.genresIdIn.Some? && id in f.genresIdIn.value && id !in m.genreIds)
          || (f.countriesIdIn.Some? && id in f.countriesIdIn.value && id !in m.countryIds)
    ensures !Matches(f, m)
  {
    MatchesEachSpec(f, m);
    if f.genresIdIn.Some? && id in f.genresIdIn.value && id !in m.genreIds {
      CountMatchesIsSubset(m.genreIds, f.genresIdIn.value);
    } else {
      CountMatchesIsSubset(m.countryIds, f.countriesIdIn.value);
    }
  }

  /** The genre ids a filter asks for; null asks for none. */
  function RequestedGenres(f: Filter): set<int>
  {
    if f.genresIdIn.Some? then f.genresIdIn.value else {}
  }

  /** Asking for more genres never lets more movies through. */
  lemma MoreGenresNarrow(f: Filter, more: set<int>, m: MovieRow)
    requires RequestedGenres(f) <= more
    ensures Matches(f.(genresIdIn := Some(more)), m) ==> Matches(f, m)
  {
    var g := f.(genresIdIn := Some(more));
    MatchesEachSpec(f, m);
    MatchesEachSpec(g, m);
    if Matches(g, m) && f.genresIdIn.Some? && f.genresIdIn.value != {} {
      CountMatchesIsSubset(m.genreIds, more);
      CountMatchesIsSubset(m.genreIds, f.genresIdIn.value);
    }
  }

  /** Hence the selection for more genres is contained in the selection for
      fewer. */
  lemma MoreGenresSelectFewer(f: Filter, more: set<int>, rows: seq<MovieRow>)
    requires RequestedGenres(f) <= more
    ensures forall m | m in Select(f.(genresIdIn := Some(more)), rows) :: m in Select(f, rows)
  {
    forall m | m in Select(f.(genresIdIn := Some(more)), rows)
      ensures m in Select(f, rows)
    {
      MoreGenresNarrow(f, more, m);
    }
  }

  // The title parameter reaches LIKE unescaped, so its '%' and '_' act as
  // wildcards: a parameter "_" selects every movie with a non-empty title.
  // What follows exhibits that, then states the corrected condition, with
  // the parameter escaped, and proves it is the substring test for every
  // parameter.

  /** A title parameter "_" lets through a movie whose title holds no "_". */
  lemma UnderscoreMatchesAnyTitle()
    ensures var f := Filter(None, None, Some("_"), None, None);
            var m := MovieRow(None, Some("ab"), {}, {});
            Matches(f, m) && !Intended(f, m)
  {
    var f := Filter(None, None, Some("_"), None, None);
    var m := MovieRow(None, Some("ab"), {}, {});
    assert Lower("_") == "_";
    assert Lower("ab") == "ab";
    assert !IsJavaWhitespace("_"[0]);
    assert Like("b", "%") by { LikeAnything("b"); }
    assert Like("ab", "_%");
    assert Like("ab", "%_%");
    assert "%" + Lower("_") + "%" == "%_%";
    assert TitleLikeSpec(f) == Some(TitleLike("%_%"));
    MatchesEachSpec(f, m);
    forall i | 0 <= i <= |"ab"|
      ensures !("_" <= "ab"[i..])
    {
    }
  }

  /** The escape character the corrected condition declares. */
  const Escape: char := '\\'

  /** The parameter with each of '%', '_' and the escape character preceded
      by the escape character. */
  function EscapeLiteral(q: string): (r: string)
    ensures |r| >= |q|
  {
    if q == [] then []
    else (if q[0] == '%' || q[0] == '_' || q[0] == Escape then [Escape, q[0]] else [q[0]]) + EscapeLiteral(q[1..])
  }

  /** LIKE with an escape character: an escaped character matches only
      itself; otherwise as Like. */
  predicate LikeEscaped(s: string, p: string)
    decreases |s| + |p|
  {
    if p == [] then s == []
    else if p[0] == Escape && |p| >= 2 then s != [] && s[0] == p[1] && LikeEscaped(s[1..], p[2..])
    else if p[0] == '%' then LikeEscaped(s, p[1..]) || (s != [] && LikeEscaped(s[1..], p))
    else if p[0] == '_' then s != [] && LikeEscaped(s[1..], p[1..])
    else s != [] && s[0] == p[0] && LikeEscaped(s[1..], p[1..])
  }

  /** Why NoWildcards also keeps out the backslash: the pattern a title
      parameter a\b becomes reads two ways. Without an escape character it
      asks for a backslash, which the title "ab" lacks; with the backslash as
      escape character, as PostgreSQL, H2 and MySQL read a LIKE that names
      none, it asks for "ab" itself. */
  lemma BackslashReadsTwoWays()
    ensures !Like("ab", "%a\\b%")
    ensures LikeEscaped("ab", "%a\\b%")
  {
  }

  /** The corrected title condition: the lower-cased parameter, escaped. */
  function EscapedTitleLikeSpec(f: Filter): Option<Condition>
  {
    if HasText(f.titleLike) then Some(TitleLikeEscaped("%" + EscapeLiteral(Lower(f.titleLike.value)) + "%")) else None
  }

  function CorrectedToSpecification(f: Filter): seq<Condition>
  {
    Present([ReleaseDateGteSpec(f), ReleaseDateLteSpec(f), EscapedTitleLikeSpec(f), GenresIdInSpec(f), CountriesIdInSpec(f)])
  }

  predicate CorrectedMatches(f: Filter, m: MovieRow)
  {
    forall c | c in CorrectedToSpecification(f) :: Holds(c, m)
  }

  lemma {:induction false} LikeEscapedAnything(s: string)
    ensures LikeEscaped(s, "%")
    decreases |s|
  {
    if s != [] {
      LikeEscapedAnything(s[1..]);
    }
  }

  /** An escaped literal followed by '%' matches exactly the strings the
      literal begins, whatever characters it holds. */
  lemma {:induction false} LikeEscapedLiteralPrefix(s: string, q: string)
    ensures LikeEscaped(s, EscapeLiteral(q) + "%") <==> q <= s
    decreases |q|
  {
    if q == [] {
      assert EscapeLiteral(q) + "%" == "%";
      LikeEscapedAnything(s);
    } else {
      var p := EscapeLiteral(q) + "%";
      var tail := EscapeLiteral(q[1..]) + "%";
      if s != [] {
        LikeEscapedLiteralPrefix(s[1..], q[1..]);
        assert q <= s <==> (s[0] == q[0] && q[1..] <= s[1..]);
      }
      if q[0] == '%' || q[0] == '_' || q[0] == Escape {
        assert p == [Escape, q[0]] + tail;
        assert p[0] == Escape && p[1] == q[0] && p[2..] == tail;
      } else {
        assert p == [q[0]] + tail;
        assert p[0] == q[0] && p[1..] == tail;
      }
    }
  }

  lemma {:induction false} LikeEscapedLeadingPercent(s: string, rest: string)
    ensures LikeEscaped(s, "%" + rest) <==> exists i | 0 <= i <= |s| :: LikeEscaped(s[i..], rest)
    decreases |s|
  {
    var p := "%" + rest;
    assert p[0] == '%' && p[1..] == rest;
    assert s[0..] == s;
    if s != [] {
      LikeEscapedLeadingPercent(s[1..], rest);
      if exists i | 0 <= i <= |s| :: LikeEscaped(s[i..], rest) {
        var i :| 0 <= i <= |s| && LikeEscaped(s[i..], rest);
        if i > 0 {
          assert s[1..][i - 1..] == s[i..];
        }
      }
      if exists j | 0 <= j <= |s[1..]| :: LikeEscaped(s[1..][j..], rest) {
        var j :| 0 <= j <= |s[1..]| && LikeEscaped(s[1..][j..], rest);
        assert s[1..][j..] == s[j + 1..];
      }
    }
  }

  /** With the parameter escaped, the title condition is the substring test
      for every parameter. */
  lemma LikeEscapedIsContains(s: string, q: string)
    ensures LikeEscaped(s, "%" + EscapeLiteral(q) + "%") <==> Contains(s, q)
  {
    assert "%" + EscapeLiteral(q) + "%" == "%" + (EscapeLiteral(q) + "%");
    LikeEscapedLeadingPercent(s, EscapeLiteral(q) + "%");
    forall i | 0 <= i <= |s|
      ensures LikeEscaped(s[i..], EscapeLiteral(q) + "%") <==> q <= s[i..]
    {
      LikeEscapedLiteralPrefix(s[i..], q);
    }
  }

  /** A row passes the corrected specification exactly when it meets each
      non-null sub-specification. */
  lemma CorrectedMatchesEachSpec(f: Filter, m: MovieRow)
    ensures CorrectedMatches(f, m) <==>
      && (ReleaseDateGteSpec(f).Some? ==> Holds(ReleaseDateGteSpec(f).value, m))
      && (ReleaseDateLteSpec(f).Some? ==> Holds(ReleaseDateLteSpec(f).value, m))
      && (EscapedTitleLikeSpec(f).Some? ==> Holds(EscapedTitleLikeSpec(f).value, m))
      && (GenresIdInSpec(f).Some? ==> Holds(GenresIdInSpec(f).value, m))
      && (CountriesIdInSpec(f).Some? ==> Holds(CountriesIdInSpec(f).value, m))
  {
    var specs := [ReleaseDateGteSpec(f), ReleaseDateLteSpec(f), EscapedTitleLikeSpec(f), GenresIdInSpec(f), CountriesIdInSpec(f)];
    assert CorrectedToSpecification(f) == Present(specs);
    assert specs[0] == ReleaseDateGteSpec(f) && specs[1] == ReleaseDateLteSpec(f) && specs[2] == EscapedTitleLikeSpec(f);
    assert specs[3] == GenresIdInSpec(f) && specs[4] == CountriesIdInSpec(f);
  }

  /** The corrected filter selects exactly what the filter is meant to, with
      no restriction on the title parameter. */
  lemma CorrectedMatchesIffIntended(f: Filter, m: MovieRow)
    ensures CorrectedMatches(f, m) <==> Intended(f, m)
  {
    CorrectedMatchesEachSpec(f, m);
    if HasText(f.titleLike) && m.title.Some? {
      LikeEscapedIsContains(Lower(m.title.value), Lower(f.titleLike.value));
    }
    if f.genresIdIn.Some? && f.genresIdIn.value != {} {
      CountMatchesIsSubset(m.genreIds, f.genresIdIn.value);
    }
    if f.countriesIdIn.Some? && f.countriesIdIn.value != {} {
      CountMatchesIsSubset(m.countryIds, f.countriesIdIn.value);
    }
  }

  /** Where the title parameter has no wildcard, the correction changes
      nothing. */
  lemma CorrectionAgreesWithoutWildcards(f: Filter, m: MovieRow)
    requires f.titleLike.Some? ==> NoWildcards(f.titleLike.value)
    ensures CorrectedMatches(f, m) <==> Matches(f, m)
  {
    CorrectedMatchesIffIntended(f, m);
    MatchesIffIntended(f, m);
  }
}
