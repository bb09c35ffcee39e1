/** Small shared datatypes: optional request fields and handler replies. */
module Common {

  /** A request field, query parameter, storage entry or DOM lookup that may be absent. */
  datatype Option<T> = None | Some(value: T) {

    /** The wrapped value, or `default` when absent (JavaScript's `x || default` on a falsy `x`). */
    function GetOr(default: T): T
    {
      match this
      case Some(v) => v
      case None => default
    }
  }

  /** JavaScript truthiness of an optional string: present and non-empty. */
  predicate Truthy(s: Option<string>)
  {
    s.Some? && s.value != ""
  }

  /** What a route handler answers: a JSON body with status 200, or an error status carrying
      the `{ error: message }` body. */
  datatype Reply<T> = Ok(body: T) | Err(status: nat, message: string)

  /** `a` is `b` with some elements dropped and the rest kept in order. */
  predicate Subsequence<T(==)>(a: seq<T>, b: seq<T>)
    decreases |b|
  {
    if |a| == 0 then true
    else if |b| == 0 then false
    else if a[0] == b[0] then Subsequence(a[1..], b[1..])
    else Subsequence(a, b[1..])
  }
}
