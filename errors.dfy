/** The error vocabulary of the osu! API client. The transport library's and the JSON
    library's own error values are opaque here: only their message text is kept. */
module Errors {

  type Bytes = seq<bv8>

  /** A failure of the HTTP connection or of reading a response body. */
  datatype TransportError = TransportError(message: string)

  /** A request that could not be built (bad URI, bad header value). */
  datatype HttpError = HttpError(message: string)

  /** A JSON document that does not have the expected shape. */
  datatype JsonError = JsonError(message: string)

  /** The body the API sends with an error status: `{"error": "..."}`. */
  datatype ApiErrorResponse = ApiErrorResponse(error: string)

  datatype OsuApiError =
    | HyperError(transport: TransportError)
    | HyperHttpError(http: HttpError)
    | ApiError(response: ApiErrorResponse)
    | ParsingError(json: JsonError, body: Bytes)
    | BadRequest
    | ServiceUnavailable
    | RateLimited
    | NoToken
}
