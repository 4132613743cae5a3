/** The shapes an axios response takes on the pages: the response object
    carries its payload under `data`, and a paginated endpoint nests the
    list under `data.results`. */
module Responses {
  import opened Wrappers

  /** What `res.data` holds: nothing, an array, or an object whose `results`
      field may hold an array. */
  datatype Body<T> = Absent | List(items: seq<T>) | Page(results: Option<seq<T>>)

  /** A resolved request. `asArray` is present when the value handed back is
      itself an array (a client that unwraps `data` itself). */
  datatype Response<T> = Response(asArray: Option<seq<T>>, data: Body<T>)
}
