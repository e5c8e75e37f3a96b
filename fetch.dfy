/**
 * The outcome of one `fetch` to the backend, as the frontend handlers see it. The
 * network itself is outside the model: every handler takes the outcome as a parameter.
 */
module Fetch {
  import opened Wrappers

  /**
   * `NetworkError`: the `fetch` promise rejects. `Response`: the server answered with an
   * `ok` (2xx) status or not, and a body that `response.json()` parses to a value
   * (`Some`) or fails to parse (`None`).
   */
  datatype FetchResult<T> = NetworkError | Response(ok: bool, json: Option<T>)
}
