/** What the HTTP client hands back to the gateways, and the error value they throw.
    Timeouts, retries and the transport itself belong to the HTTP library and are
    folded into the single outcome a request finally settles on. */
module Http {
  import opened Types

  /** How a GET request finally settled, after the client's own retries:
      a 2xx response with a JSON body, a non-2xx status (the client throws an
      `HTTPError`), or no usable response at all (network failure, timeout,
      a body that is not JSON). */
  datatype HttpOutcome<+B> = Ok(body: B) | HttpStatus(code: int) | NoResponse

  /** A JSON body seen through a runtime shape check: either it has the expected
      shape, and then it is that value, or it does not. */
  datatype Body<+T> = Shaped(value: T) | Unshaped

  /** The application's `ApiError`: a message and, for HTTP-level failures, the status. */
  datatype ApiError = ApiError(message: string, statusCode: Option<int>)

  /** Anything a `catch` block can receive: an `ApiError` or some other exception. */
  datatype Thrown = ApiThrown(err: ApiError) | OtherThrown

  /** The status classes both gateways distinguish, in the order they test them. */
  datatype StatusClass = NotFound | TooManyRequests | ServerError | OtherStatus

  function Classify(code: int): (c: StatusClass)
    ensures c == NotFound <==> code == 404
    ensures c == TooManyRequests <==> code == 429
    ensures c == ServerError <==> code >= 500
    ensures c == OtherStatus <==> code != 404 && code != 429 && code < 500
  {
    if code == 404 then NotFound
    else if code == 429 then TooManyRequests
    else if code >= 500 then ServerError
    else OtherStatus
  }

  const TooManyRequestsMessage := "Too many requests. Please try again later"
  const ServerErrorMessage := "Server error. Please try again later"
  const NetworkErrorMessage := "Network error. Please check your connection"

  /** The message a gateway attaches to an HTTP error status; `notFound` and
      `fallback` are the gateway's own texts for 404 and for unclassified statuses. */
  function StatusMessage(code: int, notFound: string, fallback: string): string {
    match Classify(code)
    case NotFound => notFound
    case TooManyRequests => TooManyRequestsMessage
    case ServerError => ServerErrorMessage
    case OtherStatus => fallback
  }

  /** With four distinct texts, the message names the status class exactly:
      two statuses get the same message if and only if they fall in the same class. */
  lemma StatusMessageIdentifiesClass(c1: int, c2: int, notFound: string, fallback: string)
    requires notFound != fallback
    requires notFound != TooManyRequestsMessage && notFound != ServerErrorMessage
    requires fallback != TooManyRequestsMessage && fallback != ServerErrorMessage
    ensures StatusMessage(c1, notFound, fallback) == StatusMessage(c2, notFound, fallback)
        <==> Classify(c1) == Classify(c2)
  {
    assert TooManyRequestsMessage != ServerErrorMessage;
  }

  /** The text a store shows for a caught exception: the `ApiError`'s own message,
      or the store's fallback for anything else. */
  function ErrorText(t: Thrown, fallback: string): (msg: string)
    ensures t.ApiThrown? ==> msg == t.err.message
    ensures t.OtherThrown? ==> msg == fallback
  {
    match t
    case ApiThrown(e) => e.message
    case OtherThrown => fallback
  }
}
