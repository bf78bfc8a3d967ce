/** Option and Result, the two failure-carrying datatypes the model uses. */
module Wrappers {

  datatype Option<+T> = None | Some(value: T)

  datatype Result<+T> = Ok(value: T) | Err(error: string)

  /** The value of `m[k]`, or `default` when `k` is missing (a Go map read). */
  function GetOr<K, V>(m: map<K, V>, k: K, default: V): V
  {
    if k in m then m[k] else default
  }
}
