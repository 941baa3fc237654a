/** Option and Result, the two failure-carrying shapes the model uses. */
module Wrappers {

  datatype Option<+T> = None | Some(value: T)

  datatype Result<+T, +E> = Success(value: T) | Failure(error: E)
}

/** Association lists with string keys, as header lists and written JSON objects are. */
module Pairs {
  import opened Wrappers

  /** The value under the first occurrence of `key`. */
  function Lookup<V>(entries: seq<(string, V)>, key: string): (r: Option<V>)
    ensures r.Some? <==> exists i | 0 <= i < |entries| :: entries[i].0 == key
  {
    if entries == [] then None
    else if entries[0].0 == key then Some(entries[0].1)
    else Lookup(entries[1..], key)
  }
}

/** Octets, as Rust's `u8`. */
module Bytes {

  type byte = b: int | 0 <= b < 256
}

/**
 * The ways the modelled code stops. Every `expect`/`unwrap` in the source is a panic;
 * the model returns one of these instead, so that a caller can see which one it was.
 */
module Errors {

  datatype Error =
    | BadUrl                     // `path_segments_mut().expect(BAD_URL)` on a cannot-be-a-base URL
    | BodyNotUtf8                // `String::from_utf8(..).expect("Body must be valid UTF-8")`
    | BuildFailed                // `hyper::Request::builder()...expect("Failed to build request!")`
    | FloatParse(text: string)   // `f64::from_str(text).unwrap()`
}
