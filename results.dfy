/** Optional values and fallible results, standing in for Rust's `Option` and `anyhow::Result`. */
module Results {

  datatype Option<+T> = None | Some(value: T)

  datatype Result<+T, +E> = Ok(value: T) | Err(error: E)
}
