/** Rust's `Option`, used for "no hit" and "absorbed" results. */
module Options {

  datatype Option<+T> = None | Some(value: T)
}
