/** Optional values and the HTTP-style replies the route handlers produce. */
module Wrappers {

  /** A value that may be absent (JavaScript `null` / `undefined`). */
  datatype Option<+T> = None | Some(value: T)

  /** What a route handler answers: a 200 with a body, or an error status with its message. */
  datatype Reply<+T> = Ok(value: T) | Fail(status: int, message: string)
  {
    /** The HTTP status code of the response. */
    function Status(): int {
      if Ok? then 200 else status
    }
  }

  /** JavaScript truthiness of an optional string: present and not empty. */
  predicate Truthy(s: Option<string>) {
    s.Some? && s.value != ""
  }

  /** `x || ''` for an optional string. */
  function OrEmpty(s: Option<string>): (r: string)
    ensures Truthy(s) ==> r == s.value
    ensures !Truthy(s) ==> r == ""
  {
    if s.Some? then s.value else ""
  }
}
