/** Optional values and fallible results, used where the cache reports
    "not found", an eviction that may or may not happen, or a failed construction. */
module Maybe {
  datatype Option<T> = None | Some(value: T)

  datatype Result<T, E> = Ok(value: T) | Err(error: E)
}
