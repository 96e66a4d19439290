/** The optional value used throughout the model for JavaScript's
    `null`/`undefined` results and Rust's `Option`. */
module Options {
  datatype Option<T> = None | Some(value: T)
}
