/** How the outbound HTTP client classifies an upstream response
    (handler/RestTemplateResponseErrorHandler.java), as a function of the
    status code. */
module ErrorHandler {
  import opened Wrappers

  /** The status-code classes: the hundreds digit of the code. */
  datatype Series = Informational | Successful | Redirection | ClientError | ServerError

  /** The class of a status code; a code outside 100..599 has none, and
      reading it raises IllegalArgumentException. */
  function SeriesOf(code: int): (r: Option<Series>)
    ensures r.Some? <==> 100 <= code < 600
    ensures r == Some(ClientError) <==> 400 <= code < 500
    ensures r == Some(ServerError) <==> 500 <= code < 600
  {
    if code < 100 || code >= 600 then None
    else
      var hundreds := code / 100;
      if hundreds == 1 then Some(Informational)
      else if hundreds == 2 then Some(Successful)
      else if hundreds == 3 then Some(Redirection)
      else if hundreds == 4 then Some(ClientError)
      else Some(ServerError)
  }

  const NotFoundStatus: int := 404

  /** What the handler raises. */
  datatype Raised =
    | HttpClientError(status: int)   // HttpClientErrorException, raised for every 5xx
    | ApiNotFound                    // APINotFoundException, raised for 404
    | UnknownStatusCode(code: int)   // IllegalArgumentException from reading the status

  /** `hasError`: the response is an error when it is 4xx or 5xx. */
  function HasError(code: int): (r: Result<bool, Raised>)
    ensures !(100 <= code < 600) ==> r == Err(UnknownStatusCode(code))
    ensures r == Ok(true) <==> 400 <= code < 600
    ensures r == Ok(false) <==> 100 <= code < 400
  {
    match SeriesOf(code)
    case None => Err(UnknownStatusCode(code))
    case Some(series) => Ok(series == ClientError || series == ServerError)
  }

  /** `handleError`: returns normally (`Ok`) or raises. */
  function HandleError(code: int): (r: Result<(), Raised>)
    ensures !(100 <= code < 600) ==> r == Err(UnknownStatusCode(code))
    ensures 500 <= code < 600 ==> r == Err(HttpClientError(code))
    ensures code == NotFoundStatus ==> r == Err(ApiNotFound)
    ensures 400 <= code < 500 && code != NotFoundStatus ==> r == Ok(())
    ensures 100 <= code < 400 ==> r == Ok(())
  {
    match SeriesOf(code)
    case None => Err(UnknownStatusCode(code))
    case Some(series) =>
      if series == ServerError then Err(HttpClientError(code))
      else if series == ClientError && code == NotFoundStatus then Err(ApiNotFound)
      else Ok(())
  }

  /** Within the known range, the handler raises only for a response that
      `hasError` reports as an error, and for every 5xx one. */
  lemma RaisesOnlyOnErrors(code: int)
    requires 100 <= code < 600
    ensures HandleError(code).Err? ==> HasError(code) == Ok(true)
    ensures HasError(code) == Ok(true) && HandleError(code).Ok? <==> 400 <= code < 500 && code != NotFoundStatus
  {
  }
}
