/** Failure-carrying results shared by every component of the store. */
module Wrappers {

  /** A value, or the error that took its place (Go's `(T, error)` pair). */
  datatype Result<+T, +E> = Ok(value: T) | Err(error: E)

  /** An error return with no value (Go's bare `error`, nil being Pass). */
  datatype Outcome<+E> = Pass | Fail(error: E)
}

/** The lookup rule shared by the two map-backed stores (reference catalog and digest index). */
module KeyValue {
  import opened Wrappers

  /** What a component reports: the `errors.New("not found")` of a missing key, or an I/O error. */
  datatype StoreError = NotFoundError | IoError

  /** `v, ok := m[k]; if !ok { return not found }`: the value iff the key is present. */
  function Lookup<K, V>(m: map<K, V>, k: K): (r: Result<V, StoreError>)
    ensures r.Ok? <==> k in m
    ensures r.Ok? ==> r.value == m[k]
    ensures r.Err? ==> r.error == NotFoundError
  {
    if k in m then Ok(m[k]) else Err(NotFoundError)
  }
}
