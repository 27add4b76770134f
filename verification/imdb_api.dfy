/** The IMDb gateway of `src/api/imdb.ts`: one detail record per IMDb id, and a
    batch lookup that turns every failure into an empty slot. */
module ImdbApi {
  import opened Types
  import opened Http
  import opened Strings
  import Validators

  /** A 2xx body from `titles/<id>`: the `errorMessage` field the service may put in
      an otherwise successful reply, and the body seen through the detail-record
      shape check. */
  datatype ImdbBody = ImdbBody(errorMessage: Option<string>, record: Body<ImdbMovie>)

  /** The detail service, as a function from the requested id to how the request settled. */
  type ImdbEndpoint = string -> HttpOutcome<ImdbBody>

  const InvalidIdMessage := "Invalid IMDb ID format"
  const DetailsNotFoundMessage := "Movie not found"
  const DetailsFailedMessage := "Failed to fetch movie details"
  const InvalidDataMessage := "Invalid movie data received"

  /** The cheap check made before any request: a non-empty id that starts with "tt". */
  predicate PassesIdCheck(id: string) {
    id != [] && StartsWith(id, "tt")
  }

  /** A JavaScript-truthy error message: present and not the empty string. */
  predicate Truthy(m: Option<string>) {
    m.Some? && m.value != []
  }

  /** The body a request settled on is a usable detail record. */
  predicate Usable(o: HttpOutcome<ImdbBody>) {
    o.Ok? && !Truthy(o.body.errorMessage) && o.body.record.Shaped?
  }

  /** `getMovieDetails`.  It succeeds exactly when the id passes the pre-check and the
      service answers with a shaped record and no error message, and then returns that
      record.  Otherwise the `ApiError` names the first thing that went wrong: the id,
      the network, the HTTP status (which it keeps), an in-body error message (reported
      as a 404), or the record's shape. */
  function GetMovieDetails(id: string, api: ImdbEndpoint): (r: Result<ImdbMovie, ApiError>)
    ensures r.Success? <==> PassesIdCheck(id) && Usable(api(id))
    ensures r.Success? ==> r.value == api(id).body.record.value
    ensures !PassesIdCheck(id) ==> r == Failure(ApiError(InvalidIdMessage, None))
    ensures PassesIdCheck(id) && api(id).NoResponse? ==> r == Failure(ApiError(NetworkErrorMessage, None))
    ensures PassesIdCheck(id) && api(id).HttpStatus? ==>
              r == Failure(ApiError(StatusMessage(api(id).code, DetailsNotFoundMessage, DetailsFailedMessage),
                                    Some(api(id).code)))
    ensures PassesIdCheck(id) && api(id).Ok? && Truthy(api(id).body.errorMessage) ==>
              r == Failure(ApiError(api(id).body.errorMessage.value, Some(404)))
    ensures PassesIdCheck(id) && api(id).Ok? && !Truthy(api(id).body.errorMessage) && api(id).body.record.Unshaped? ==>
              r == Failure(ApiError(InvalidDataMessage, None))
  {
    if !PassesIdCheck(id) then Failure(ApiError(InvalidIdMessage, None))
    else
      match api(id)
      case NoResponse => Failure(ApiError(NetworkErrorMessage, None))
      case HttpStatus(code) =>
        Failure(ApiError(StatusMessage(code, DetailsNotFoundMessage, DetailsFailedMessage), Some(code)))
      case Ok(body) =>
        if Truthy(body.errorMessage) then Failure(ApiError(body.errorMessage.value, Some(404)))
        else if body.record.Unshaped? then Failure(ApiError(InvalidDataMessage, None))
        else Success(body.record.value)
  }

  /** The detail gateway's four status messages are distinct, so the message of an
      HTTP failure tells its status class exactly. */
  lemma DetailsMessageIdentifiesClass(c1: int, c2: int)
    ensures StatusMessage(c1, DetailsNotFoundMessage, DetailsFailedMessage)
         == StatusMessage(c2, DetailsNotFoundMessage, DetailsFailedMessage)
        <==> Classify(c1) == Classify(c2)
  {
    StatusMessageIdentifiesClass(c1, c2, DetailsNotFoundMessage, DetailsFailedMessage);
  }

  /** The status code of a failure is present exactly when the service answered with
      an HTTP error or an in-body error message; a service error message always
      reads as a 404. */
  lemma DetailsStatusCode(id: string, api: ImdbEndpoint)
    requires GetMovieDetails(id, api).Failure?
    ensures GetMovieDetails(id, api).error.statusCode.Some?
        <==> PassesIdCheck(id) && (api(id).HttpStatus? || (api(id).Ok? && Truthy(api(id).body.errorMessage)))
    ensures GetMovieDetails(id, api).error.statusCode == Some(404) && api(id).Ok?
        ==> GetMovieDetails(id, api).error.message == api(id).body.errorMessage.value
  {
  }

  /** A well-formed id always passes the pre-check, but the pre-check is weaker:
      "tt123" passes it without being a well-formed id. */
  lemma IdCheckWeakerThanValidation(id: string)
    ensures Validators.IsValidImdbId(id) ==> PassesIdCheck(id)
    ensures PassesIdCheck("tt123") && !Validators.IsValidImdbId("tt123")
  {
    assert "tt123"[..2] == "tt";
  }

  /** No request outcome can rescue an id that fails the pre-check. */
  lemma BadIdIgnoresService(id: string, api1: ImdbEndpoint, api2: ImdbEndpoint)
    requires !PassesIdCheck(id)
    ensures GetMovieDetails(id, api1) == GetMovieDetails(id, api2)
  {
  }

  /** `getMultipleMovieDetails`: one slot per id, in order; a slot holds the record
      exactly when the single lookup of that id succeeds.  The batch itself never fails. */
  function GetMultipleMovieDetails(ids: seq<string>, api: ImdbEndpoint): (r: seq<Option<ImdbMovie>>)
    ensures |r| == |ids|
    ensures forall i :: 0 <= i < |ids| ==> r[i] == GetMovieDetails(ids[i], api).ToOption()
  {
    if ids == [] then []
    else [GetMovieDetails(ids[0], api).ToOption()] + GetMultipleMovieDetails(ids[1..], api)
  }

  /** Looking up a concatenation of id lists is concatenating the lookups. */
  lemma MultipleAppend(a: seq<string>, b: seq<string>, api: ImdbEndpoint)
    ensures GetMultipleMovieDetails(a + b, api) == GetMultipleMovieDetails(a, api) + GetMultipleMovieDetails(b, api)
  {
    assert forall i :: 0 <= i < |a| ==> (a + b)[i] == a[i];
    assert forall i :: |a| <= i < |a| + |b| ==> (a + b)[i] == b[i - |a|];
  }

  /** With the service unreachable, every slot of a batch is empty. */
  lemma MultipleOffline(ids: seq<string>, api: ImdbEndpoint)
    requires forall id :: api(id).NoResponse?
    ensures forall i :: 0 <= i < |ids| ==> GetMultipleMovieDetails(ids, api)[i].None?
  {
  }
}
