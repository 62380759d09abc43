/** RequestValidation: the Bean Validation constraints declared on the
    request bodies, as the list of field errors a validator reports for a
    request. Of the controllers only the watched-movie one asks for
    validation (`@Valid`); the constraints on the other bodies are stated
    here on their own and are not preconditions of the services. Two
    families of request bodies exist: the `models` package, with the
    stricter constraints, and the `dtos` package the services consume. */
module RequestValidation {
  import opened Common
  import opened Text
  import opened Dtos
  import ErrorAdvice
  import UserService
  import Repository
  import Entities

  type FieldError = ErrorAdvice.FieldError

  /** One constraint on one field: no error when it holds, otherwise one
      error carrying the constraint's message. */
  function Check(field: string, holds: bool, message: string): (r: seq<FieldError>)
    ensures holds <==> r == []
    ensures !holds ==> r == [ErrorAdvice.FieldError(field, Some(message))]
  {
    if holds then [] else [ErrorAdvice.FieldError(field, Some(message))]
  }

  // The built-in constraints. Each but @NotNull, @NotBlank and @NotEmpty
  // lets a null value through.

  predicate NotNull<T>(v: Option<T>)
  {
    v.Some?
  }

  /** @NotBlank: not null, and something is left once trimmed. */
  predicate NotBlank(v: Option<string>)
  {
    v.Some? && SurvivesTrim(v.value)
  }

  /** @Size(min, max) on a string. */
  predicate SizeBetween(v: Option<string>, min: nat, max: nat)
  {
    v.None? || min <= |v.value| <= max
  }

  predicate PositiveOrZero(v: Option<int>)
  {
    v.None? || v.value >= 0
  }

  predicate Positive(v: Option<int>)
  {
    v.None? || v.value > 0
  }

  /** @NotEmpty on a collection: not null and not empty. */
  predicate NotEmpty<T>(v: Option<set<T>>)
  {
    v.Some? && v.value != {}
  }

  /** `Set<@NotNull Integer>`: no null element (a null set has none). */
  predicate NoNullElement(v: Option<set<Option<int>>>)
  {
    v.None? || None !in v.value
  }

  /** A character of the class [a-zA-Z0-9_.-]. */
  predicate UsernameChar(c: char)
  {
    ('a' <= c <= 'z') || ('A' <= c <= 'Z') || ('0' <= c <= '9') || c == '_' || c == '.' || c == '-'
  }

  /** @Pattern(regexp = "^[a-zA-Z0-9_.-]+$"), matched against the whole
      value: one or more characters, all of the class. */
  predicate MatchesUsernamePattern(v: Option<string>)
  {
    v.None? || (|v.value| >= 1 && forall i | 0 <= i < |v.value| :: UsernameChar(v.value[i]))
  }

  const NotBlankMessage := "must not be blank"
  const NotNullMessage := "must not be null"
  const NotEmptyMessage := "must not be empty"
  const PositiveOrZeroMessage := "must be greater than or equal to 0"
  const UsernamePatternMessage := "must match \"^[a-zA-Z0-9_.-]+$\""

  function SizeMessage(min: nat, max: nat): string
  {
    "size must be between " + NatToString(min) + " and " + NatToString(max)
  }

  // ---------------------------------------------------------------- users

  /** The user request of the `models` package: a username that is not
      blank, 3 to 50 characters long and made of letters, digits, '_', '.'
      and '-'. */
  function UserRequestErrors(req: UserRequest): (r: seq<FieldError>)
    ensures forall e | e in r :: e.field == "username"
    ensures req.username.None? ==> r == [ErrorAdvice.FieldError("username", Some("must not be blank"))]
  {
    Check("username", NotBlank(req.username), NotBlankMessage)
    + Check("username", SizeBetween(req.username, 3, 50), SizeMessage(3, 50))
    + Check("username", MatchesUsernamePattern(req.username), UsernamePatternMessage)
  }

  /** What the three constraints come to: present, 3 to 50 characters, all
      from the class; the not-blank constraint adds nothing to the other
      two. */
  predicate ValidUsername(u: Option<string>)
  {
    u.Some? && 3 <= |u.value| <= 50 && forall i | 0 <= i < |u.value| :: UsernameChar(u.value[i])
  }

  /** The three constraints hold together exactly when the username is
      valid in the plain sense. */
  lemma UsernameConstraintsIff(req: UserRequest)
    ensures UserRequestErrors(req) == [] <==> ValidUsername(req.username)
  {
    if ValidUsername(req.username) {
      assert req.username.value[0] > ' ';
    }
  }

  /** A username that passes the constraints of the `models` request body
      has text, so a user created from it would be stored with a username
      that is neither null nor blank. This is a conditional statement only:
      the user service consumes the `dtos` request body, which nothing
      validates, so the service itself guarantees no such thing. */
  lemma ValidUsernameIsStoredWithText(repo: Repository.Repo<Entities.User>, req: UserRequest, now: Timestamp)
    requires UserService.Stored(repo)
    requires UserRequestErrors(req) == []
    ensures HasText(UserService.CreateUser(repo, req, now).after.rows[repo.nextId].username)
  {
    UsernameConstraintsIff(req);
    assert !IsJavaWhitespace(req.username.value[0]);
  }

  /** A username of the wrong length is reported with the size message, and
      the 400 response's message carries it as "username: size must be
      between 3 and 50". */
  lemma ShortUsernameReported(name: string, exceptionMessage: string, now: Timestamp)
    requires |name| < 3 || |name| > 50
    ensures ErrorAdvice.FieldError("username", Some("size must be between 3 and 50")) in UserRequestErrors(UserRequest(Some(name)))
    ensures Contains(ErrorAdvice.HandleValidation(UserRequestErrors(UserRequest(Some(name))), exceptionMessage, now).body.message,
                     "username: size must be between 3 and 50")
  {
    var req := UserRequest(Some(name));
    var errors := UserRequestErrors(req);
    var e := ErrorAdvice.FieldError("username", Some("size must be between 3 and 50"));
    SizeMessageOfUsername();
    var blank := Check("username", NotBlank(req.username), NotBlankMessage);
    assert errors == blank + [e] + Check("username", MatchesUsernamePattern(req.username), UsernamePatternMessage);
    assert errors[|blank|] == e;
    ErrorAdvice.ValidationMessageListsEveryError(errors, exceptionMessage, now);
    RenderedSizeError();
  }

  lemma RenderedSizeError()
    ensures ErrorAdvice.Render(ErrorAdvice.FieldError("username", Some("size must be between 3 and 50")))
         == "username: size must be between 3 and 50"
  {
  }

  lemma SizeMessageOfUsername()
    ensures SizeMessage(3, 50) == "size must be between 3 and 50"
  {
    assert NatToString(3) == "3";
    assert NatToString(50) == "50";
  }

  // ---------------------------------------------------- genres, countries

  /** The genre request of the `models` package: a name that is not blank
      and 2 to 50 characters long. */
  function StrictGenreRequestErrors(req: GenreRequest): (r: seq<FieldError>)
    ensures forall e | e in r :: e.field == "name"
    ensures r == [] <==> NotBlank(req.name) && 2 <= |req.name.value| <= 50
  {
    Check("name", NotBlank(req.name), NotBlankMessage) + Check("name", SizeBetween(req.name, 2, 50), SizeMessage(2, 50))
  }

  /** The genre request of the `dtos` package: a name that is not blank. */
  function GenreRequestErrors(req: GenreRequest): (r: seq<FieldError>)
    ensures r == [] <==> NotBlank(req.name)
    ensures r != [] ==> r == [ErrorAdvice.FieldError("name", Some("Genre name cannot be blank"))]
  {
    Check("name", NotBlank(req.name), "Genre name cannot be blank")
  }

  /** The country request of the `models` package: a name that is not blank
      and 2 to 100 characters long. */
  function StrictCountryRequestErrors(req: CountryRequest): (r: seq<FieldError>)
    ensures forall e | e in r :: e.field == "name"
    ensures r == [] <==> NotBlank(req.name) && 2 <= |req.name.value| <= 100
  {
    Check("name", NotBlank(req.name), NotBlankMessage) + Check("name", SizeBetween(req.name, 2, 100), SizeMessage(2, 100))
  }

  /** The country request of the `dtos` package: a name that is not blank. */
  function CountryRequestErrors(req: CountryRequest): (r: seq<FieldError>)
    ensures r == [] <==> NotBlank(req.name)
    ensures r != [] ==> r == [ErrorAdvice.FieldError("name", Some("Country name cannot be blank"))]
  {
    Check("name", NotBlank(req.name), "Country name cannot be blank")
  }

  /** The `models` constraints are the stricter ones: a name they accept the
      `dtos` constraint accepts, but not the other way round. */
  lemma StrictNameConstraintsAreStronger(name: Option<string>)
    ensures StrictGenreRequestErrors(GenreRequest(name)) == [] ==> GenreRequestErrors(GenreRequest(name)) == []
    ensures StrictCountryRequestErrors(CountryRequest(name)) == [] ==> CountryRequestErrors(CountryRequest(name)) == []
    ensures GenreRequestErrors(GenreRequest(Some("x"))) == [] && StrictGenreRequestErrors(GenreRequest(Some("x"))) != []
  {
    assert Some("x").value[0] > ' ';
  }

  // --------------------------------------------------------------- movies

  /** The movie request of the `dtos` package: a title that is not blank,
      and a year and a duration that are positive when present. */
  function MovieRequestErrors(req: MovieRequest): (r: seq<FieldError>)
    ensures forall e | e in r :: e.field in {"title", "year", "durationMinutes"}
    ensures r == [] <==> NotBlank(req.title) && Positive(req.year) && Positive(req.durationMinutes)
    ensures |r| <= 3
  {
    Check("title", NotBlank(req.title), "Title cannot be blank")
    + Check("year", Positive(req.year), "Year must be positive")
    + Check("durationMinutes", Positive(req.durationMinutes), "Duration must be positive")
  }

  /** The movie request of the `models` package. Its id sets are declared
      with non-null elements, so an element may be null here. */
  datatype StrictMovieRequest = StrictMovieRequest(
    title: Option<string>,
    description: Option<string>,
    year: Option<int>,
    releaseDate: Option<Date>,
    worldGross: Option<int>,
    budget: Option<int>,
    ageRating: Option<string>,
    durationMinutes: Option<int>,
    genreIds: Option<set<Option<int>>>,
    countryIds: Option<set<Option<int>>>)

  /** Title not blank and 1 to 255 characters; year and duration present
      and not negative; gross and budget not negative when present; both id
      sets present, not empty and without a null element. */
  function StrictMovieRequestErrors(req: StrictMovieRequest): (r: seq<FieldError>)
    ensures r == [] <==>
      && NotBlank(req.title) && |req.title.value| <= 255
      && req.year.Some? && req.year.value >= 0
      && PositiveOrZero(req.worldGross) && PositiveOrZero(req.budget)
      && req.durationMinutes.Some? && req.durationMinutes.value >= 0
      && NotEmpty(req.genreIds) && None !in req.genreIds.value
      && NotEmpty(req.countryIds) && None !in req.countryIds.value
  {
    Check("title", NotBlank(req.title), NotBlankMessage)
    + Check("title", SizeBetween(req.title, 1, 255), SizeMessage(1, 255))
    + Check("year", NotNull(req.year), NotNullMessage)
    + Check("year", PositiveOrZero(req.year), PositiveOrZeroMessage)
    + Check("worldGross", PositiveOrZero(req.worldGross), PositiveOrZeroMessage)
    + Check("budget", PositiveOrZero(req.budget), PositiveOrZeroMessage)
    + Check("durationMinutes", NotNull(req.durationMinutes), NotNullMessage)
    + Check("durationMinutes", PositiveOrZero(req.durationMinutes), PositiveOrZeroMessage)
    + Check("genreIds", NotEmpty(req.genreIds), NotEmptyMessage)
    + Check("genreIds[]", NoNullElement(req.genreIds), NotNullMessage)
    + Check("countryIds", NotEmpty(req.countryIds), NotEmptyMessage)
    + Check("countryIds[]", NoNullElement(req.countryIds), NotNullMessage)
  }

  /** The non-null elements of a set of optional ids. */
  function NonNullIds(ids: set<Option<int>>): (r: set<int>)
    ensures forall i :: i in r <==> Some(i) in ids
  {
    set o | o in ids && o.Some? :: o.value
  }

  /** The service request a `models` movie request amounts to. */
  function Relax(req: StrictMovieRequest): (r: MovieRequest)
    ensures r.title == req.title && r.year == req.year && r.durationMinutes == req.durationMinutes
    ensures req.genreIds.Some? ==> r.genreIds == Some(NonNullIds(req.genreIds.value))
    ensures req.countryIds.Some? ==> r.countryIds == Some(NonNullIds(req.countryIds.value))
  {
    MovieRequest(req.title, req.description, req.year, req.releaseDate, req.worldGross, req.budget, req.ageRating,
                 req.durationMinutes,
                 if req.genreIds.Some? then Some(NonNullIds(req.genreIds.value)) else None,
                 if req.countryIds.Some? then Some(NonNullIds(req.countryIds.value)) else None)
  }

  /** The two families disagree at zero: the `models` request accepts a year
      or a duration of 0 that the `dtos` request rejects; any other valid
      `models` request is a valid `dtos` request, with both id sets listed. */
  lemma StrictMovieRequestVersusDtos(req: StrictMovieRequest)
    requires StrictMovieRequestErrors(req) == []
    ensures req.year.value > 0 && req.durationMinutes.value > 0 <==> MovieRequestErrors(Relax(req)) == []
    ensures Relax(req).genreIds.value != {} && Relax(req).countryIds.value != {}
  {
    var g :| g in req.genreIds.value;
    assert g.value in Relax(req).genreIds.value;
    var c :| c in req.countryIds.value;
    assert c.value in Relax(req).countryIds.value;
  }

  // -------------------------------------------------------- watched movies

  /** The watched-movie request as it arrives: either id may be null. */
  datatype RawWatchedMovieRequest = RawWatchedMovieRequest(userId: Option<int>, movieId: Option<int>)

  /** Both ids must be present; this is the one body the controllers
      validate. */
  function WatchedMovieRequestErrors(req: RawWatchedMovieRequest): (r: seq<FieldError>)
    ensures r == [] <==> req.userId.Some? && req.movieId.Some?
    ensures |r| == (if req.userId.None? then 1 else 0) + (if req.movieId.None? then 1 else 0)
    ensures forall e | e in r :: e.defaultMessage == Some("must not be null")
  {
    Check("userId", NotNull(req.userId), NotNullMessage) + Check("movieId", NotNull(req.movieId), NotNullMessage)
  }

  /** What a validated watched-movie request hands to the service: a
      request is either refused with its field errors, or reaches the
      service with both of its ids. */
  function Admit(req: RawWatchedMovieRequest): (r: Admission)
    ensures r.Refused? <==> WatchedMovieRequestErrors(req) != []
    ensures r.Refused? ==> r.errors == WatchedMovieRequestErrors(req)
    ensures r.Admitted? ==> Some(r.request.userId) == req.userId && Some(r.request.movieId) == req.movieId
  {
    if req.userId.Some? && req.movieId.Some? then Admitted(WatchedMovieRequest(req.userId.value, req.movieId.value))
    else Refused(WatchedMovieRequestErrors(req))
  }

  datatype Admission = Admitted(request: WatchedMovieRequest) | Refused(errors: seq<FieldError>)
}
