/** The title-search gateway of `src/api/movies.ts`. */
module MoviesApi {
  import opened Types
  import opened Http

  /** `SearchMoviesParams`: a title and an optional page. */
  datatype SearchParams = SearchParams(title: string, page: Option<int>)

  /** The query string actually sent: `Title=<title>&page=<page>`. */
  datatype SearchRequest = SearchRequest(title: string, page: int)

  /** The search service, as a function from the query sent to how the request settled. */
  type MoviesEndpoint = SearchRequest -> HttpOutcome<Body<MoviesResponse>>

  const InvalidResponseMessage := "Invalid API response format"
  const NoMoviesMessage := "No movies found"
  const SearchFailedMessage := "Failed to search movies"

  /** `params.page || 1`: a missing page and page 0 (falsy in JavaScript) both mean page 1. */
  function PageOrDefault(page: Option<int>): (p: int)
    ensures p != 0
    ensures page.Some? && page.value != 0 ==> p == page.value
    ensures page.None? || page.value == 0 ==> p == 1
  {
    if page.Some? && page.value != 0 then page.value else 1
  }

  /** The request `searchMovies` sends for its parameters; the title goes out as given. */
  function RequestFor(params: SearchParams): (q: SearchRequest)
    ensures q.title == params.title && q.page == PageOrDefault(params.page)
  {
    SearchRequest(params.title, PageOrDefault(params.page))
  }

  /** `searchMovies`.  It succeeds exactly when the service answers with a body of the
      response shape, and then returns that body.  A non-2xx status becomes an error
      carrying the status; no response becomes the network error; a body of the
      wrong shape becomes the format error. */
  function SearchMovies(params: SearchParams, api: MoviesEndpoint): (r: Result<MoviesResponse, ApiError>)
    ensures r.Success? <==> api(RequestFor(params)).Ok? && api(RequestFor(params)).body.Shaped?
    ensures r.Success? ==> r.value == api(RequestFor(params)).body.value
    ensures api(RequestFor(params)).HttpStatus? ==>
              r == Failure(ApiError(StatusMessage(api(RequestFor(params)).code, NoMoviesMessage, SearchFailedMessage),
                                    Some(api(RequestFor(params)).code)))
    ensures api(RequestFor(params)).NoResponse? ==> r == Failure(ApiError(NetworkErrorMessage, None))
    ensures api(RequestFor(params)) == Ok(Unshaped) ==> r == Failure(ApiError(InvalidResponseMessage, None))
  {
    match api(RequestFor(params))
    case Ok(body) =>
      if body.Shaped? then Success(body.value) else Failure(ApiError(InvalidResponseMessage, None))
    case HttpStatus(code) =>
      Failure(ApiError(StatusMessage(code, NoMoviesMessage, SearchFailedMessage), Some(code)))
    case NoResponse =>
      Failure(ApiError(NetworkErrorMessage, None))
  }

  /** The search gateway's four status messages are distinct, so the message of an
      HTTP failure tells its status class exactly. */
  lemma SearchMessageIdentifiesClass(c1: int, c2: int)
    ensures StatusMessage(c1, NoMoviesMessage, SearchFailedMessage)
         == StatusMessage(c2, NoMoviesMessage, SearchFailedMessage)
        <==> Classify(c1) == Classify(c2)
  {
    StatusMessageIdentifiesClass(c1, c2, NoMoviesMessage, SearchFailedMessage);
  }

  /** Every message a failed search can carry. */
  predicate IsSearchMessage(m: string) {
    m in {InvalidResponseMessage, NoMoviesMessage, SearchFailedMessage,
          TooManyRequestsMessage, ServerErrorMessage, NetworkErrorMessage}
  }

  /** A failed search carries one of the six search messages, and a status code
      exactly when the service answered with an HTTP error. */
  lemma SearchFailureKinds(params: SearchParams, api: MoviesEndpoint)
    requires SearchMovies(params, api).Failure?
    ensures IsSearchMessage(SearchMovies(params, api).error.message)
    ensures SearchMovies(params, api).error.statusCode.Some? <==> api(RequestFor(params)).HttpStatus?
  {
  }

  /** `getAllMovies(page = 1)`.  Its default page and the `|| 1` of `searchMovies`
      agree, so listing everything is the empty-title search for every page argument,
      the missing one included. */
  function GetAllMovies(page: Option<int>, api: MoviesEndpoint): (r: Result<MoviesResponse, ApiError>)
    ensures r == SearchMovies(SearchParams("", page), api)
  {
    assert RequestFor(SearchParams("", Some(page.GetOr(1)))) == RequestFor(SearchParams("", page));
    SearchMovies(SearchParams("", Some(page.GetOr(1))), api)
  }

  /** Two parameter sets that differ only in a falsy page send the same request. */
  lemma FalsyPagesAgree(title: string, api: MoviesEndpoint)
    ensures SearchMovies(SearchParams(title, None), api) == SearchMovies(SearchParams(title, Some(0)), api)
    ensures SearchMovies(SearchParams(title, Some(0)), api) == SearchMovies(SearchParams(title, Some(1)), api)
  {
    assert RequestFor(SearchParams(title, None)) == RequestFor(SearchParams(title, Some(0)))
        == RequestFor(SearchParams(title, Some(1)));
  }
}
